# Blockchain price tracker — a Dafny model of its core

The service tracks token prices. It has six parts, each modelled in its own module:

- **token-price sync** (`TokenPriceSync`): every five minutes it fetches a quote for each supported token and appends one row per quote to the `prices` table;
- **alert sync** (`PriceAlertSync`): every hour it scans the table and mails a fixed address when a scanned row's price is at least 3 % above that of its chain's newest row of the last hour. The newest row is passed as the old price, so a price that fell to the present raises a "Price Increased" mail;
- **price-alert service** (`PriceAlerts`): registers one alert per (chain, email) and, every ten minutes, mails every subscriber the newest price of its chain;
- **prices service** (`Prices`): returns the last 24 hours of rows, grouped by hour of day;
- **swap service and controller** (`SwapService`, `SwapController`): quote how much BTC an ETH amount buys, with a 0.03 % fee;
- **book service** (`Books`): a small CRUD catalogue with keyword search and offset pagination.

The model is written in the code's own form:

- **Stateful parts are classes.** The tables, the outbox and the cron objects are classes whose fields change in place. Their methods state their whole new state using specification functions: `MovementAlerts`, `Ingested`, `TargetAlerts`, `Last24Hours`/`AtHour`, `ReplaceBook`/`RemoveBook`. Lemmas then prove what the source promises about those functions.
- **Pure parts are functions.** The swap calculation, the percent-change rule and the book queries are pure functions.
- **Environment becomes parameters.** Time is a parameter `now`, in milliseconds since the epoch. The market-data answers are passed in per call. Whether a repository call throws is passed in as a `StoreOutcome` or as the index of the failing lookup.
- **Mail is an outbox.** A sent mail is a record appended to an outbox.

Where the documented behaviour and the code differ, the model follows the code:

- A token whose quote is unusable ends the whole ingestion tick. It is not skipped with the loop going on.
- An alert whose chain has no price ends the whole `checkPriceAlerts` run. Later alerts get no mail.
- The swap amount is `a · (a·p / q)`, not `a·p / q` (see Findings).
- With no ETH row stored, the swap rate silently uses price 0. It does not fail.

## Model

| member | source | states |
|---|---|---|
| Common.PriceTable.Save | src/crons/token-price-sync.cron.ts:39-46 | a save appends exactly the given row at the end and changes nothing else |
| Common.Newest | src/crons/price-alert-sync.cron.ts:48-56 | `findOne` ordered by timestamp descending: nothing iff no row of the chain is in the window; otherwise a stored row of the chain, in the window, whose timestamp is at least that of every other row in the window |
| Common.Processed | src/crons/price-alert-sync.cron.ts:44-56 | the elements handled before a failing lookup are a prefix of the input: exactly the first failAt of them, or all when the lookup never fails |
| Common.Outbox.SendEmail | src/utils/email.service.ts:17-28 | every send is recorded once, in call order, whatever the transport then does |
| SwapService.EthRow | src/swap/swap.service.ts:57-59 | the ETH lookup finds nothing iff no row has symbol "ETH"; otherwise an ETH row, the first in storage order |
| SwapService.ConvertEthToDollar | src/swap/swap.service.ts:54-67 | fails iff the repository throws, always with "Failed to fetch ETH to USD rate" and 502; otherwise the amount times the ETH price, or 0 when there is no ETH row |
| SwapService.GetSwapRate | src/swap/swap.service.ts:16-40 | a missing or zero BTC quote fails with 503 and "Could not retrieve exchange rate"; a throwing repository then fails with 502; otherwise btcAmount·q = a²·p, fee.eth = 0.0003·a and fee.dollar = fee.eth·p |
| SwapService.CorrectedSwapRate | src/swap/swap.service.ts:26-29 | the same error cases, with btcAmount·q = a·p: the BTC received is worth in dollars what the ETH given is worth |
| SwapService.UnusableQuoteIgnoresStore | src/swap/swap.service.ts:18-25 | with an unusable quote the reply is the same failure for every table and every store behaviour, so no ETH lookup takes effect |
| SwapService.ConversionOnlyUsesPrice | src/swap/swap.service.ts:60 | two tables whose ETH rows have the same price convert every amount alike |
| SwapService.OnlyEthPriceMatters | src/swap/swap.service.ts:57-60 | the swap reply depends on the table only through the chosen ETH row's price, not on how recent that row is |
| SwapService.NoEthRowDegradesToZero | src/swap/swap.service.ts:60 | with no ETH row and a usable quote the reply succeeds with btcAmount 0, fee.eth 0.0003·a and fee.dollar 0 |
| SwapService.SquaredAmountExample | src/swap/swap.service.ts:26-31 | a = 2, p = 3000, q = 60000: the code gives 0.2 BTC and the corrected rate 0.1 BTC, both with a fee of 0.0006 ETH worth 1.8 dollars |
| SwapController.GetSwapRateEndpoint | src/swap/swap.controller.ts:18-24 | rejected with 400 "Invalid ETH amount" iff the amount is NaN or not positive; otherwise exactly the service's reply, as written, for the parsed amount |
| SwapController.RejectionMakesNoLookup | src/swap/swap.controller.ts:20-23 | a rejected amount gives the same reply whatever the quote, table and store are |
| PriceAlertSync.PercentChange | src/crons/price-alert-sync.cron.ts:72-74 | for a non-zero old price, the result times the old price equals 100 times the difference |
| PriceAlertSync.TriggersAtThreePercent | src/crons/price-alert-sync.cron.ts:58-65 | for a positive reference price, the rule fires iff the new price is at least 103 % of it |
| PriceAlertSync.ZeroReferenceTriggers | src/crons/price-alert-sync.cron.ts:58-65 | with a zero reference price the rule fires iff the new price is positive, the only case where the quotient is +Infinity |
| PriceAlertSync.ThresholdIsInclusive | src/crons/price-alert-sync.cron.ts:65 | 100 to 103 fires, 100 to 102.99 does not |
| PriceAlertSync.EqualPriceNeverFires | src/crons/price-alert-sync.cron.ts:59-65 | an unchanged price never fires, zero reference price included |
| PriceAlertSync.MovementAlerts | src/crons/price-alert-sync.cron.ts:46-70 | at most one mail per scanned row |
| PriceAlertSync.MovementAlertsSound | src/crons/price-alert-sync.cron.ts:46-81 | every mail goes to the fixed address and is the mail of a scanned row that fires, with that row's chain and price |
| PriceAlertSync.MovementAlertsAppend | src/crons/price-alert-sync.cron.ts:46-70 | mails come in scan order: scanning one more row adds its mail, if it fires, at the end |
| PriceAlertSync.NoRecentRowNoAlert | src/crons/price-alert-sync.cron.ts:48-58 | a chain with no row in the last hour gets no mail |
| PriceAlertSync.FallingPriceAlerts | src/crons/price-alert-sync.cron.ts:58-62 | because the newest row is passed as the old price, a fall from 103 to 100 sends "Price Increased" with price 103 |
| PriceAlertSync.AlertSyncCron.constructor | src/crons/price-alert-sync.cron.ts:11 | the running flag starts false |
| PriceAlertSync.AlertSyncCron.OnTick | src/crons/price-alert-sync.cron.ts:25-37 | a tick while the flag is set sends nothing and leaves it set; a started tick sends nothing if `find()` throws and otherwise the scan's mails up to the first failing lookup, swallows the error and ends with the flag cleared |
| PriceAlertSync.AlertSyncCron.CheckPriceIncreases | src/crons/price-alert-sync.cron.ts:40-70 | appends nothing if `find()` throws and otherwise exactly the mails of the rows before the first failing lookup; reports failure iff `find()` or a lookup threw |
| PriceAlertSync.AlertSyncCron.ScanRows | src/crons/price-alert-sync.cron.ts:46-70 | the loop over the rows `find()` returned: appends exactly the mails of the rows before the first failing lookup, and reports failure iff a lookup threw |
| PriceAlertSync.AlertSyncCron.CheckRow | src/crons/price-alert-sync.cron.ts:47-68 | the mail for one scanned row is sent iff a reference row exists and the rule fires against it |
| PriceAlertSync.AlertSyncCron.SendAlert | src/crons/price-alert-sync.cron.ts:76-82 | one mail to the fixed address with the chain and the given price |
| TokenPriceSync.Ingested | src/crons/token-price-sync.cron.ts:30-47 | one row per token, in list order, each built from its quote with the tick time, up to the first step that throws (unusable answer, failing lookup or failing save); no more rows than tokens |
| TokenPriceSync.IngestedSplit | src/crons/token-price-sync.cron.ts:30-47 | the rows for a run of usable answers followed by more answers are the rows for the run followed by the rows for the rest |
| TokenPriceSync.AllAnswersStored | src/crons/token-price-sync.cron.ts:30-46 | with every answer usable, exactly one row per supported token |
| TokenPriceSync.StepIngested | src/crons/token-price-sync.cron.ts:39-46 | one more usable answer adds its row at the end |
| TokenPriceSync.TokenPriceSyncCron.constructor | src/crons/token-price-sync.cron.ts:12 | the running flag starts false |
| TokenPriceSync.TokenPriceSyncCron.OnTick | src/crons/token-price-sync.cron.ts:26-54 | a tick while the flag is set saves nothing; a started tick appends exactly the ingested rows, leaves existing rows alone, and ends with the flag cleared |
| TokenPriceSync.TokenPriceSyncCron.SyncAll | src/crons/token-price-sync.cron.ts:29-49 | appends exactly the ingested rows, and fails iff fewer rows than tokens were saved |
| PriceAlerts.FindAlert | src/price-alert/price-alert.service.ts:26-28 | nothing iff no alert has the (chain, email) key; otherwise a stored alert with that key |
| PriceAlerts.InsertKeepsKeysUnique | src/price-alert/price-alert.service.ts:26-40 | appending an alert whose key is absent keeps the keys unique |
| PriceAlerts.TargetAlerts | src/price-alert/price-alert.service.ts:57-69 | mail k goes to alert k's email, with the newest price of its chain and no comparison to the target, for every alert before the first chain with no price |
| PriceAlerts.StopsAtFirstMissingPrice | src/price-alert/price-alert.service.ts:59-72 | an alert whose chain has no price, and every later alert, gets no mail |
| PriceAlerts.AlertTable.Save | src/price-alert/price-alert.service.ts:36-40 | appends one alert with the next id, the given chain, target price and email, not triggered |
| PriceAlerts.PriceAlertService.constructor | src/price-alert/price-alert.service.ts:14-20 | the service holds the given tables and mailer |
| PriceAlerts.PriceAlertService.SetPriceAlert | src/price-alert/price-alert.service.ts:23-52 | an existing key gives status 400 and no change; otherwise exactly one alert is appended and status 200; a throwing repository gives "Failed to set price alert for <chain>: <reason>" and no change; unique keys stay unique |
| PriceAlerts.PriceAlertService.CheckPriceAlerts | src/price-alert/price-alert.service.ts:55-73 | writes neither table and never throws: appends nothing if `find()` throws, and otherwise exactly the target-alert mails of the alerts before the first failing price lookup |
| PriceAlerts.PriceAlertService.MailAlerts | src/price-alert/price-alert.service.ts:59-69 | the loop over the alerts `find()` returned: appends exactly `TargetAlerts` of the alerts before the first failing lookup, one mail per alert in list order |
| PriceAlerts.TargetAlertsFromMails | src/price-alert/price-alert.service.ts:59-69 | mails sent one per alert, in order, until the list ends or a chain has no price, are exactly `TargetAlerts` of that list |
| PriceAlerts.PriceAlertService.SendAlertEmail | src/price-alert/price-alert.service.ts:76-81 | one mail to the given address with the chain and price |
| Prices.HourOf | src/prices/prices.service.ts:45 | the hour of a timestamp is in 0..23 |
| Prices.Since | src/prices/prices.service.ts:22-25 | each row with a timestamp strictly after the bound, as often as it is stored, and no other |
| Prices.Insert | src/prices/prices.service.ts:26-28 | the result is a permutation of the sequence plus the new row |
| Prices.InsertAscending | src/prices/prices.service.ts:26-28 | inserting into an ascending sequence keeps it ascending |
| Prices.SortByTime | src/prices/prices.service.ts:26-28 | an ascending permutation of the input |
| Prices.Last24Hours | src/prices/prices.service.ts:19-29 | the rows newer than one day before now, each as often as it is stored, in ascending timestamp order |
| Prices.AtHourMembers | src/prices/prices.service.ts:44-50 | a bucket holds exactly the input rows of its hour |
| Prices.HourBucketNonEmpty | src/prices/prices.service.ts:45-48 | a bucket is non-empty iff some row has its hour, and only hours 0..23 have one |
| Prices.AtHourKeepsOrder | src/prices/prices.service.ts:49 | the bucket of an ascending input is ascending |
| Prices.BucketSizesAppend | src/prices/prices.service.ts:44-50 | one more row adds one to exactly its own hour's bucket |
| Prices.BucketSizesSum | src/prices/prices.service.ts:44-50 | the sizes of the 24 buckets add up to the number of rows |
| Prices.DayBucketsSound | src/prices/prices.service.ts:18-50 | every row in a reply bucket is a stored row from the last day with the bucket's hour, and each bucket is ascending |
| Prices.GroupPricesByHour | src/prices/prices.service.ts:41-53 | a key exists iff its bucket is non-empty, and under it lie that hour's rows in input order |
| Prices.PricesService.constructor | src/prices/prices.service.ts:13-16 | the service holds the given table |
| Prices.PricesService.GetPricesForLast24Hours | src/prices/prices.service.ts:18-38 | status 200 always; the buckets are those of the last day's rows in ascending order |
| Books.FindBook | src/book/book.service.ts:45-48 | nothing iff no book has the id; otherwise a stored book with that id |
| Books.Patched | src/book/book.service.ts:70 | updating a book keeps its id |
| Books.PatchKeepsOmittedFields | src/book/book.service.ts:70 | a field the payload leaves out keeps its value, an empty payload changes nothing, and the same patch twice is the patch once |
| Books.ReplaceBook | src/book/book.service.ts:70 | the table keeps its length and every row its id |
| Books.RemoveBook | src/book/book.service.ts:90-92 | exactly the rows with another id remain, and the ids stay increasing |
| Books.ReplaceKeepsKeys | src/book/book.service.ts:70 | an update keeps ids unique, increasing, positive and below the next id |
| Books.EmptyPatchChangesNothing | src/book/book.service.ts:70 | an update whose payload sets no field leaves every row as it was |
| Books.FindAfterReplace | src/book/book.service.ts:70-75 | after an update the id finds the patched book, and every other id finds what it found before |
| Books.FindAfterRemove | src/book/book.service.ts:89-92 | after a delete the id finds nothing, every other id finds what it did, and the table shrinks by one iff the id was present |
| Books.Matching | src/book/book.service.ts:25-30 | exactly the stored books that match the keyword |
| Books.NoKeywordMatchesAll | src/book/book.service.ts:26-30 | an absent or empty keyword applies no filter |
| Books.Window | src/book/book.service.ts:31-35 | entry i of a window is element skip + i, and it holds min(take, what is left) entries, or all that is left when take is 0 |
| Books.FindAll | src/book/book.service.ts:23-43 | total counts every match; the page holds the matches from (page − 1) · limit on, at most limit of them or all when limit is 0; page and limit are echoed |
| Books.PageEntry | src/book/book.service.ts:31-35 | entry r of a page is match (page − 1) · limit + r whenever that match exists |
| Books.EveryMatchOnItsPage | src/book/book.service.ts:31-35 | with a positive limit, match j is entry j mod limit of page j div limit + 1 |
| Books.SecondPageOfTen | src/book/book.service.spec.ts:187-207 | page 2 of 10 without a keyword skips the first ten books |
| Books.BookService.constructor | src/entities/book.entity.ts:11-12 | an empty table whose first generated id is 1 |
| Books.BookService.Create | src/book/book.service.ts:14-21 | appends the payload under a fresh id and returns it with "Book Create Successfully" |
| Books.BookService.FindOne | src/book/book.service.ts:45-56 | the data is present iff a stored book has the id, and is that book; otherwise "Book Not Found" with 404 |
| Books.BookService.Update | src/book/book.service.ts:58-80 | a missing id gives "Book Not Found" with 404 and no change; otherwise only that row is patched and the patched row is returned with "Book Udated Successfully"; an empty payload succeeds and changes no modelled field |
| Books.BookService.Remove | src/book/book.service.ts:83-101 | a present id is deleted, alone, with "Book Deleted Successfully"; a missing id gives "Book Not Found" with 404 and no change |

## Left out

- I/O is not modelled: HTTP to the market-data API, SMTP and SQL are parameters or records instead. Nothing here models network failure beyond the answers passed in.
- Concurrency is not modelled. Ticks and requests are single calls. The running flag is state, so a tick that finds it set is modelled, but interleavings between different cron jobs are not.
- Timers are not modelled. The cron schedules (every 5 minutes, every hour, every 10 minutes) and application bootstrap are left out, because the model has no clock.
- JavaScript numbers and `decimal(18,8)` are exact reals. Rounding, overflow and the text form of prices in mail bodies are not modelled.
- The division by a zero reference price is handled only for what it decides. `Triggers` says what the IEEE result does to the `>= 3` comparison.
- PriceAlertSync.PercentChange: defined only for a non-zero old price, because a real quotient has no infinities.
- Prices.HourOf: uses a fixed offset from UTC. Daylight-saving changes of the host's time zone are not modelled.
- The database leaves some orders open: equal timestamps, an unordered `findOne`, and the unordered `find()` and `findAndCount` behind the alert mails, the movement scan and book pagination. The model fixes one choice, storage order (the first such row for `findOne`), and the sort is stable.
- Every `where` equality on a string column is exact equality of character sequences. The tables declare no collation, so MySQL's default collation applies, and it ignores case and accents. The affected members are listed on their own lines below.
- PriceAlerts.FindAlert: the (chain, email) key is compared exactly. So ("bitcoin", "A@b.com") is a new key beside a stored ("Bitcoin", "a@b.com"), where the database would find the stored alert and `setPriceAlert` would reply 400.
- PriceAlerts.TargetAlerts: an alert's chain is compared exactly with the price rows' chains. So an alert on "bitcoin" finds no price among rows of "Bitcoin", ending the run there, where the database would find the price and go on mailing.
- Common.Newest: the chain is compared exactly, so the reference row of the movement scan and `LatestPrice` ignore rows whose chain differs only in case or accents.
- SwapService.EthRow: the row is found by exact equality with "ETH", so a row stored as "eth" is not found.
- Books.Matching: `LIKE` is plain case-sensitive substring containment. The collation's case folding and the `%` and `_` wildcards inside a keyword are not modelled.
- Books.FindAll: page and limit are integers here. The query DTO's `@IsNumber` also admits fractions, such as page 1.5 with limit 10, which gives skip 5, and those are not modelled. A negative limit, which the database rejects, is excluded by the `nat` type. The `page >= 1` precondition mirrors the query DTO's validation.
- The creation and update dates of books and alerts are not modelled. Nor is the generated timestamp default of price rows.
- Books.BookService.Update: an empty payload is a successful update. This rests on TypeORM setting the `@UpdateDateColumn` in every update, so the query is never empty; the new update date itself is not modelled.
- PriceAlerts.AlertTable.Save: stores the exact target price, while the `target_price` column is an integer column that rounds it. Nothing in the core reads the target.
- Repository failures are modelled where the code has a handler for them: the swap service, `setPriceAlert`, `checkPriceAlerts` and both cron ticks. A failing step of the token tick is one of the `None` outcomes. In the book service and the prices service, which have no handler, repository failures are not modelled.
- The `BAD_GATEWAY` branch of `fetchEthToBtcRate` is not modelled, because it cannot be reached. The market-data client catches its own errors and returns 0, which the `!btcRate` check then rejects with 503.
- TokenPriceSync.RowOf: every row saved in one tick gets the same `now`. The source reads the clock at each save, after that token's awaited calls, so the rows of one tick carry increasing times.
- The unused `findOne` in the token-price tick is left out, since its result is never read. How ids are generated for price rows is also left out.
- Controllers other than the swap check are not modelled. Nor are DTO validation by decorators, Nest module wiring and migrations.
- `parseFloat` itself is not modelled. Its result is passed in, with `None` standing for NaN.

## Findings

| source | as written | input that shows it | evidently intended | confidence | as-written member | corrected member |
|---|---|---|---|---|---|---|
| src/swap/swap.service.ts:26-29 | `btcAmount = ethAmount * (ethAmountInDollar / btcRate)`, but `ethAmountInDollar` already includes the amount, so the result is a²·p/q | a = 2, ETH at 3000, BTC at 60000: 0.2 BTC, where 2 ETH is worth 6000 dollars, which is 0.1 BTC | btcAmount = a·p/q | high; not executed | SwapService.SquaredAmountExample | SwapService.CorrectedSwapRate |
