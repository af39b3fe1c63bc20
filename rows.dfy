/**
 * The rows of the two append-only tables `ticker_data` and `trade_data`
 * (data_acquisition/db.py, CREATE_TABLES_QUERY) and the clock they are stamped with.
 */
module Rows {

  /** A naive instant: microseconds since 1970-01-01 00:00:00, PostgreSQL's TIMESTAMP resolution. */
  type Instant = int

  const MicrosPerSecond: nat := 1_000_000
  const MicrosPerHour: nat := 3600 * MicrosPerSecond
  const MicrosPerDay: nat := 24 * MicrosPerHour

  /** A pandas datetime value: a time, or NaT ("not a time"). */
  datatype Stamp = At(instant: Instant) | NaT

  /** One row of `ticker_data`; the SERIAL `id` is the row's position in the table. */
  datatype TickerRow = TickerRow(productId: string, time: Instant, price: real)

  /** One row of `trade_data`. */
  datatype TradeRow = TradeRow(productId: string, time: Instant, tradeId: string,
                               price: real, size: real, side: string)

  /**
   * `date_trunc` to a fixed unit: the start of the unit-long interval, counted
   * from the epoch, that holds `t` (Euclidean `%` floors, also before 1970).
   */
  function Truncate(t: Instant, unit: nat): (b: Instant)
    requires unit > 0
    ensures b <= t < b + unit
    ensures b % unit == 0
  {
    MultipleAligned(t / unit, unit);
    t - t % unit
  }

  /** A whole number of units is aligned to the unit. */
  lemma {:induction false} MultipleAligned(k: int, unit: nat)
    requires unit > 0
    ensures (k * unit) % unit == 0
  {
    var x := k * unit;
    var q, m := x / unit, x % unit;
    assert x == q * unit + m;
    Distribute(k, q, unit);
    var d := k - q;
    assert d * unit == m;
    if d >= 1 {
      AtLeastOneUnit(d, unit);
    } else if d <= -1 {
      AtMostMinusOneUnit(d, unit);
    }
  }

  lemma Distribute(a: int, b: int, u: int)
    ensures a * u - b * u == (a - b) * u
  {
  }

  lemma AtLeastOneUnit(d: int, u: nat)
    requires d >= 1
    ensures d * u >= u
  {
  }

  lemma AtMostMinusOneUnit(d: int, u: nat)
    requires d <= -1
    ensures d * u <= -(u as int)
  {
  }
}
