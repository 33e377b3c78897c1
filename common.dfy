/** Records and stores shared by the price pipeline: the `prices` table, the
    "newest row of a chain" query that three components issue against it, and
    the outbox that stands for the mail sender. */
module Common {

  datatype Option<T> = None | Some(value: T)

  datatype Result<T, E> = Success(value: T) | Failure(error: E)

  /** What the repository does on a call: answer normally, or throw with a reason. */
  datatype StoreOutcome = StoreOk | StoreError(reason: string)

  /** One row of the `prices` table. `timestamp` is in milliseconds since the epoch;
      the decimal(18,8) columns are exact reals here. */
  datatype PriceRow = PriceRow(
    chain: string,
    symbol: string,
    price: real,
    percentChange1h: real,
    percentChange24h: real,
    timestamp: int)

  /** The `prices` table: rows in storage order. The pipeline only ever appends to it. */
  class PriceTable {
    var rows: seq<PriceRow>

    constructor (initial: seq<PriceRow>)
      ensures rows == initial
    {
      rows := initial;
    }

    /** `priceEntityRepo.save(row)` for a row without an id: one insert at the end. */
    method Save(row: PriceRow)
      modifies this
      ensures rows == old(rows) + [row]
    {
      rows := rows + [row];
    }
  }

  /** How far a run over `s` gets when the repository lookup made for element
      `failAt` throws: the elements before it are handled, the rest are not. */
  function Processed<T>(s: seq<T>, failAt: Option<nat>): (p: seq<T>)
    ensures p <= s
    ensures failAt.Some? && failAt.value < |s| ==> |p| == failAt.value
    ensures failAt.None? || failAt.value >= |s| ==> p == s
  {
    if failAt.Some? && failAt.value < |s| then s[..failAt.value] else s
  }

  /** The `where` part of the query: same chain and, when a bound is given, a
      timestamp strictly after it (TypeORM's `MoreThan`). */
  predicate InWindow(r: PriceRow, chain: string, after: Option<int>)
  {
    r.chain == chain && (after.None? || after.value < r.timestamp)
  }

  /** `findOne({ where: ..., order: { timestamp: "DESC" } })`: a row of maximal
      timestamp among those in the window. The database leaves the choice among
      equal timestamps open; this model takes the first such row in storage order. */
  function Newest(rows: seq<PriceRow>, chain: string, after: Option<int>): (o: Option<PriceRow>)
    ensures o.None? <==> forall i :: 0 <= i < |rows| ==> !InWindow(rows[i], chain, after)
    ensures o.Some? ==> o.value in rows && InWindow(o.value, chain, after)
    ensures o.Some? ==> forall i :: 0 <= i < |rows| && InWindow(rows[i], chain, after) ==>
                          rows[i].timestamp <= o.value.timestamp
  {
    if rows == [] then None
    else
      var rest := Newest(rows[1..], chain, after);
      assert forall i :: 1 <= i < |rows| ==> rows[i] == rows[1..][i - 1];
      if InWindow(rows[0], chain, after) && (rest.None? || rest.value.timestamp <= rows[0].timestamp)
      then Some(rows[0])
      else rest
  }

  /** The text of an alert mail. Rendering the price into characters is not
      modelled, so the body keeps the chain and the number it interpolates. */
  datatype Message =
    | MovementMessage(chain: string, price: real)  // "The price of <chain> has increased by more than 3% ... Current price: <price>."
    | TargetMessage(chain: string, price: real)    // "The price of <chain> has reached your target price of <price> USD."

  datatype Email = Email(to: string, subject: string, text: Message)

  /** The mail sender as an append-only outbox: every `sendEmail` call is recorded,
      whether or not delivery later fails (the sender swallows its own errors). */
  class Outbox {
    var sent: seq<Email>

    constructor ()
      ensures sent == []
    {
      sent := [];
    }

    method SendEmail(to: string, subject: string, text: Message)
      modifies this
      ensures sent == old(sent) + [Email(to, subject, text)]
    {
      sent := sent + [Email(to, subject, text)];
    }
  }
}
