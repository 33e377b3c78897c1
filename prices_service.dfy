/** The last-24-hours price view (src/prices/prices.service.ts): the rows newer
    than one day before `now`, in ascending time order, bucketed by hour of day. */
module Prices {
  import opened Common

  const Ok: int := 200

  const HourMs: int := 60 * 60 * 1000
  const DayMs: int := 24 * HourMs

  /** `new Date(timestamp).getHours()` in a time zone `offsetMs` ahead of UTC.
      Dafny's division rounds down for a positive divisor, as the calendar does. */
  function HourOf(timestamp: int, offsetMs: int): (h: int)
    ensures 0 <= h < 24
  {
    ((timestamp + offsetMs) / HourMs) % 24
  }

  predicate Ascending(s: seq<PriceRow>)
  {
    forall i, j :: 0 <= i < j < |s| ==> s[i].timestamp <= s[j].timestamp
  }

  /** The `where` part: the rows with a timestamp strictly after `since`, in storage order. */
  function Since(rows: seq<PriceRow>, since: int): (s: seq<PriceRow>)
    ensures forall r :: multiset(s)[r] == if r.timestamp > since then multiset(rows)[r] else 0
  {
    if rows == [] then []
    else
      assert rows == [rows[0]] + rows[1..];
      (if rows[0].timestamp > since then [rows[0]] else []) + Since(rows[1..], since)
  }

  /** Places `r` before the first row that is not older than it. */
  function Insert(r: PriceRow, s: seq<PriceRow>): (t: seq<PriceRow>)
    ensures multiset(t) == multiset(s) + multiset{r}
    ensures t[0] == r || (s != [] && t[0] == s[0])
  {
    if s == [] then [r]
    else if r.timestamp <= s[0].timestamp then [r] + s
    else
      assert s == [s[0]] + s[1..];
      [s[0]] + Insert(r, s[1..])
  }

  /** Inserting into an ascending sequence keeps it ascending. */
  lemma {:induction false} InsertAscending(r: PriceRow, s: seq<PriceRow>)
    requires Ascending(s)
    ensures Ascending(Insert(r, s))
  {
    if s != [] && r.timestamp > s[0].timestamp {
      var rest := Insert(r, s[1..]);
      InsertAscending(r, s[1..]);
      assert s[0].timestamp <= rest[0].timestamp;
      var t := [s[0]] + rest;
      assert t == Insert(r, s);
      forall i, j | 0 <= i < j < |t|
        ensures t[i].timestamp <= t[j].timestamp
      {
        if i == 0 {
          assert rest[0].timestamp <= rest[j - 1].timestamp;
        } else {
          assert t[i] == rest[i - 1] && t[j] == rest[j - 1];
        }
      }
    }
  }

  /** `order: { timestamp: "ASC" }`: an ascending permutation of the input. Rows
      with equal timestamps keep their storage order. */
  function SortByTime(s: seq<PriceRow>): (t: seq<PriceRow>)
    ensures Ascending(t)
    ensures multiset(t) == multiset(s)
  {
    if s == [] then []
    else
      assert s == [s[0]] + s[1..];
      var sorted := SortByTime(s[1..]);
      InsertAscending(s[0], sorted);
      Insert(s[0], sorted)
  }

  /** The query of `getPricesForLast24Hours`: every row newer than one day before
      `now`, each as often as it is stored, and no other, in ascending time order. */
  function Last24Hours(rows: seq<PriceRow>, now: int): (s: seq<PriceRow>)
    ensures Ascending(s)
    ensures forall r :: multiset(s)[r] == if r.timestamp > now - DayMs then multiset(rows)[r] else 0
  {
    SortByTime(Since(rows, now - DayMs))
  }

  /** The bucket for hour `h`: the rows of that hour, in input order. */
  function AtHour(rows: seq<PriceRow>, h: int, offsetMs: int): seq<PriceRow>
  {
    if rows == [] then []
    else
      var last := rows[|rows| - 1];
      AtHour(rows[..|rows| - 1], h, offsetMs) + (if HourOf(last.timestamp, offsetMs) == h then [last] else [])
  }

  /** A bucket holds exactly the input rows of its hour ... */
  lemma {:induction false} AtHourMembers(rows: seq<PriceRow>, h: int, offsetMs: int)
    ensures forall x :: x in AtHour(rows, h, offsetMs) <==> x in rows && HourOf(x.timestamp, offsetMs) == h
  {
    if rows != [] {
      var init := rows[..|rows| - 1];
      AtHourMembers(init, h, offsetMs);
      assert rows == init + [rows[|rows| - 1]];
    }
  }

  /** ... so a bucket exists for an hour exactly when some row has that hour, and
      only hours of the day 0..23 occur. */
  lemma HourBucketNonEmpty(rows: seq<PriceRow>, h: int, offsetMs: int)
    ensures AtHour(rows, h, offsetMs) != [] <==> exists i :: 0 <= i < |rows| && HourOf(rows[i].timestamp, offsetMs) == h
    ensures AtHour(rows, h, offsetMs) != [] ==> 0 <= h < 24
  {
    AtHourMembers(rows, h, offsetMs);
    if AtHour(rows, h, offsetMs) != [] {
      var x := AtHour(rows, h, offsetMs)[0];
      assert x in AtHour(rows, h, offsetMs);
    }
  }

  /** Bucketing keeps the order: the bucket of an ascending input is ascending. */
  lemma {:induction false} AtHourKeepsOrder(rows: seq<PriceRow>, h: int, offsetMs: int)
    requires Ascending(rows)
    ensures Ascending(AtHour(rows, h, offsetMs))
  {
    if rows != [] {
      var init, last := rows[..|rows| - 1], rows[|rows| - 1];
      assert Ascending(init);
      AtHourKeepsOrder(init, h, offsetMs);
      AtHourMembers(init, h, offsetMs);
      var b := AtHour(init, h, offsetMs);
      forall k | 0 <= k < |b|
        ensures b[k].timestamp <= last.timestamp
      {
        assert b[k] in init;
      }
    }
  }

  /** The total size of the buckets for hours lo .. hi-1. */
  function BucketSizes(rows: seq<PriceRow>, offsetMs: int, lo: int, hi: int): nat
    decreases hi - lo
  {
    if lo >= hi then 0 else |AtHour(rows, lo, offsetMs)| + BucketSizes(rows, offsetMs, lo + 1, hi)
  }

  lemma {:induction false} BucketSizesAppend(rows: seq<PriceRow>, r: PriceRow, offsetMs: int, lo: int, hi: int)
    ensures BucketSizes(rows + [r], offsetMs, lo, hi)
            == BucketSizes(rows, offsetMs, lo, hi) + (if lo <= HourOf(r.timestamp, offsetMs) < hi then 1 else 0)
    decreases hi - lo
  {
    if lo < hi {
      assert (rows + [r])[..|rows|] == rows;
      BucketSizesAppend(rows, r, offsetMs, lo + 1, hi);
    }
  }

  /** Every row lands in exactly one bucket: the buckets' sizes add up to the input's. */
  lemma {:induction false} BucketSizesSum(rows: seq<PriceRow>, offsetMs: int)
    ensures BucketSizes(rows, offsetMs, 0, 24) == |rows|
  {
    if rows == [] {
      ZeroBuckets(offsetMs, 0, 24);
    } else {
      var init := rows[..|rows| - 1];
      BucketSizesSum(init, offsetMs);
      assert rows == init + [rows[|rows| - 1]];
      BucketSizesAppend(init, rows[|rows| - 1], offsetMs, 0, 24);
    }
  }

  lemma {:induction false} ZeroBuckets(offsetMs: int, lo: int, hi: int)
    ensures BucketSizes([], offsetMs, lo, hi) == 0
    decreases hi - lo
  {
    if lo < hi {
      ZeroBuckets(offsetMs, lo + 1, hi);
    }
  }

  /** `groupPricesByHour(prices)`: the dictionary it fills has a key for each hour
      that occurs and, under it, that hour's rows in input order. */
  method GroupPricesByHour(prices: seq<PriceRow>, offsetMs: int) returns (grouped: map<int, seq<PriceRow>>)
    ensures forall h :: h in grouped <==> AtHour(prices, h, offsetMs) != []
    ensures forall h :: h in grouped ==> grouped[h] == AtHour(prices, h, offsetMs)
  {
    grouped := map[];
    var i := 0;
    while i < |prices|
      invariant 0 <= i <= |prices|
      invariant forall h :: h in grouped <==> AtHour(prices[..i], h, offsetMs) != []
      invariant forall h :: h in grouped ==> grouped[h] == AtHour(prices[..i], h, offsetMs)
    {
      var price := prices[i];
      var hour := HourOf(price.timestamp, offsetMs);
      if hour !in grouped {
        grouped := grouped[hour := []];
      }
      grouped := grouped[hour := grouped[hour] + [price]];
      assert prices[..i + 1][..i] == prices[..i];
      i := i + 1;
    }
    assert prices[..i] == prices;
  }

  /** What the reply's buckets hold: rows of the table from the last day and of the
      bucket's hour, in ascending time order. */
  lemma DayBucketsSound(rows: seq<PriceRow>, now: int, h: int, offsetMs: int)
    ensures Ascending(AtHour(Last24Hours(rows, now), h, offsetMs))
    ensures forall x :: x in AtHour(Last24Hours(rows, now), h, offsetMs) ==>
              x in rows && x.timestamp > now - DayMs && HourOf(x.timestamp, offsetMs) == h
  {
    var day := Last24Hours(rows, now);
    AtHourKeepsOrder(day, h, offsetMs);
    AtHourMembers(day, h, offsetMs);
    forall x | x in AtHour(day, h, offsetMs)
      ensures x in rows && x.timestamp > now - DayMs
    {
      assert multiset(day)[x] > 0;
    }
  }

  /** The reply of `getPricesForLast24Hours`. */
  datatype HourlyPrices = HourlyPrices(data: map<int, seq<PriceRow>>, status: int)

  class PricesService {
    const prices: PriceTable

    constructor (prices: PriceTable)
      ensures this.prices == prices
    {
      this.prices := prices;
    }

    /** `getPricesForLast24Hours()`: always status 200; the buckets are those of the
        day's rows in ascending time order. Nothing is written. */
    method GetPricesForLast24Hours(now: int, offsetMs: int) returns (reply: HourlyPrices)
      ensures reply.status == Ok
      ensures forall h :: h in reply.data <==> AtHour(Last24Hours(prices.rows, now), h, offsetMs) != []
      ensures forall h :: h in reply.data ==> reply.data[h] == AtHour(Last24Hours(prices.rows, now), h, offsetMs)
    {
      var twentyFourHoursAgo := now - DayMs;
      var rows := SortByTime(Since(prices.rows, twentyFourHoursAgo));
      var hourlyPrices := GroupPricesByHour(rows, offsetMs);
      reply := HourlyPrices(hourlyPrices, Ok);
    }
  }
}
