/**
 * `bin_time_price_data` of the serving API (data_serving/api.py): the time and
 * price lists become a two-column frame; textual times are cleaned and parsed
 * with `errors="coerce"`; the frame is resampled into fixed-width bins, each bin
 * keeping the mean of its prices, and empty bins are dropped.
 *
 * Bin convention (pandas' `resample` defaults): bins are closed on the left and
 * labelled by their left edge, and they are laid out from `origin="start_day"`,
 * the midnight that starts the day of the earliest time. A point at time `t`
 * therefore falls in the bin `[b, b + w)` with `b = t - (t - origin) % w`.
 */
module Binning {
  import opened Wrappers
  import opened Rows
  import opened Sequences
  import opened Timestamps

  /** The `times` argument: datetimes already, or strings still to be parsed. */
  datatype TimeColumn = Stamps(stamps: seq<Instant>) | Texts(texts: seq<string>)

  /** Why the function raises instead of returning. */
  datatype BinError =
    | LengthMismatch  // the DataFrame constructor refuses columns of different lengths
    | EmptyInput      // `data["time"].iloc[0]` on an empty frame

  /** One row of the frame that survives the conversion: a time and its price. */
  datatype Point = Point(time: Instant, price: real)

  /** The two returned lists: bin labels and bin means. */
  datatype Binned = Binned(times: seq<Instant>, prices: seq<real>)

  function ColumnLength(col: TimeColumn): nat {
    match col
    case Stamps(ts) => |ts|
    case Texts(ss) => |ss|
  }

  /**
   * The `time` column after the conversion: datetimes are kept; strings go through
   * `clean_timestamp` and then `pd.to_datetime` (`None` where it raises), which
   * `errors="coerce"` turns into NaT.
   */
  function ParsedTimes(col: TimeColumn, toDatetime: string -> Option<Stamp>): (r: seq<Stamp>)
    ensures |r| == ColumnLength(col)
    ensures col.Stamps? ==> forall i :: 0 <= i < |r| ==> r[i] == At(col.stamps[i])
    ensures col.Texts? ==> forall i :: 0 <= i < |r| ==>
      r[i] == match toDatetime(CleanTimestamp(col.texts[i])) case Some(t) => t case None => NaT
  {
    match col
    case Stamps(ts) => seq(|ts|, i requires 0 <= i < |ts| => At(ts[i]))
    case Texts(ss) =>
      seq(|ss|, i requires 0 <= i < |ss| =>
        match toDatetime(CleanTimestamp(ss[i])) case Some(t) => t case None => NaT)
  }

  /** The rows the resampling sees: NaT rows belong to no bin. */
  function Points(stamps: seq<Stamp>, prices: seq<real>): (r: seq<Point>)
    requires |stamps| == |prices|
    ensures |r| <= |stamps|
    decreases |stamps|
  {
    if stamps == [] then []
    else
      var n := |stamps| - 1;
      Points(stamps[..n], prices[..n]) + if stamps[n].At? then [Point(stamps[n].instant, prices[n])] else []
  }

  /** A point survives exactly when it is a row of the frame whose time is not NaT. */
  lemma {:induction false} PointsMembers(stamps: seq<Stamp>, prices: seq<real>, p: Point)
    requires |stamps| == |prices|
    ensures p in Points(stamps, prices) <==>
      exists i :: 0 <= i < |stamps| && stamps[i] == At(p.time) && prices[i] == p.price
    decreases |stamps|
  {
    if stamps != [] {
      var n := |stamps| - 1;
      var s', p' := stamps[..n], prices[..n];
      var last := if stamps[n].At? then [Point(stamps[n].instant, prices[n])] else [];
      assert Points(stamps, prices) == Points(s', p') + last;
      PointsMembers(s', p', p);
      if p in Points(s', p') {
        var i :| 0 <= i < n && s'[i] == At(p.time) && p'[i] == p.price;
        assert stamps[i] == At(p.time) && prices[i] == p.price;
      } else if p in last {
        assert stamps[n] == At(p.time) && prices[n] == p.price;
      } else {
        forall i | 0 <= i < |stamps| ensures !(stamps[i] == At(p.time) && prices[i] == p.price) {
          if i < n {
            assert s'[i] == stamps[i] && p'[i] == prices[i];
          }
        }
      }
    }
  }

  /**
   * Each row contributes on its own: the points of two runs of rows are the
   * points of the first run followed by those of the second. With
   * `PointsOfOneRow` this fixes `Points` completely, so a row repeated in the
   * frame is a point repeated as often.
   */
  lemma {:induction false} PointsAppend(s1: seq<Stamp>, p1: seq<real>, s2: seq<Stamp>, p2: seq<real>)
    requires |s1| == |p1| && |s2| == |p2|
    ensures Points(s1 + s2, p1 + p2) == Points(s1, p1) + Points(s2, p2)
    decreases |s2|
  {
    if s2 == [] {
      assert s1 + s2 == s1 && p1 + p2 == p1;
    } else {
      var n := |s2| - 1;
      var s, p := s1 + s2, p1 + p2;
      var m := |s| - 1;
      var last := if s2[n].At? then [Point(s2[n].instant, p2[n])] else [];
      assert s[..m] == s1 + s2[..n] && p[..m] == p1 + p2[..n];
      assert s[m] == s2[n] && p[m] == p2[n];
      assert Points(s, p) == Points(s[..m], p[..m]) + last;
      assert Points(s2, p2) == Points(s2[..n], p2[..n]) + last;
      PointsAppend(s1, p1, s2[..n], p2[..n]);
      AppendAssoc(Points(s1, p1), Points(s2[..n], p2[..n]), last);
    }
  }

  /** One row gives its point, or none when its time is NaT. */
  lemma {:induction false} PointsOfOneRow(s: Stamp, price: real)
    ensures Points([s], [price]) == if s.At? then [Point(s.instant, price)] else []
  {
    assert [s][..0] == [] && [price][..0] == [];
  }

  /** Without NaT rows every row is a point, in frame order. */
  lemma {:induction false} PointsWithoutNaT(stamps: seq<Stamp>, prices: seq<real>)
    requires |stamps| == |prices|
    requires forall i :: 0 <= i < |stamps| ==> stamps[i].At?
    ensures |Points(stamps, prices)| == |stamps|
    ensures forall i :: 0 <= i < |stamps| ==> Points(stamps, prices)[i] == Point(stamps[i].instant, prices[i])
    decreases |stamps|
  {
    if stamps != [] {
      var n := |stamps| - 1;
      assert forall i :: 0 <= i < n ==> stamps[..n][i] == stamps[i] && prices[..n][i] == prices[i];
      PointsWithoutNaT(stamps[..n], prices[..n]);
    }
  }

  /** The earliest time among the points. */
  function Earliest(points: seq<Point>): (m: Instant)
    requires |points| > 0
    ensures forall i :: 0 <= i < |points| ==> m <= points[i].time
    ensures exists i :: 0 <= i < |points| && points[i].time == m
    decreases |points|
  {
    if |points| == 1 then points[0].time
    else
      var n := |points| - 1;
      var m := Earliest(points[..n]);
      assert forall i :: 0 <= i < n ==> points[..n][i] == points[i];
      if points[n].time < m then points[n].time else m
  }

  /** The latest time among the points. */
  function Latest(points: seq<Point>): (m: Instant)
    requires |points| > 0
    ensures forall i :: 0 <= i < |points| ==> points[i].time <= m
    decreases |points|
  {
    if |points| == 1 then points[0].time
    else
      var n := |points| - 1;
      var m := Latest(points[..n]);
      assert forall i :: 0 <= i < n ==> points[..n][i] == points[i];
      if m < points[n].time then points[n].time else m
  }

  /** `origin="start_day"`: midnight at the start of the earliest point's day. */
  function Origin(points: seq<Point>): (o: Instant)
    requires |points| > 0
    ensures forall i :: 0 <= i < |points| ==> o <= points[i].time
    ensures exists i :: 0 <= i < |points| && o <= points[i].time < o + MicrosPerDay
    ensures o % MicrosPerDay == 0
  {
    Truncate(Earliest(points), MicrosPerDay)
  }

  /** The number of whole bins between `origin` and the bin that holds `t`. */
  function BinIndex(t: Instant, origin: Instant, width: nat): int
    requires width > 0
  {
    (t - origin) / width
  }

  /** The left edge of the bin that holds `t`: the grid point `origin + k * w` at or before it. */
  function BinLabel(t: Instant, origin: Instant, width: nat): (b: Instant)
    requires width > 0
    ensures b <= t < b + width
    ensures (b - origin) % width == 0
  {
    MultipleAligned(BinIndex(t, origin, width), width);
    origin + BinIndex(t, origin, width) * width
  }

  /** The prices that fall in the bin labelled `edge`, in frame order. */
  function PricesIn(points: seq<Point>, origin: Instant, width: nat, edge: Instant): seq<real>
    requires width > 0
    decreases |points|
  {
    if points == [] then []
    else
      var n := |points| - 1;
      PricesIn(points[..n], origin, width, edge)
        + if BinLabel(points[n].time, origin, width) == edge then [points[n].price] else []
  }

  /** One more point adds its price to its own bin and to no other. */
  lemma {:induction false} PricesInAppend(points: seq<Point>, p: Point, origin: Instant, width: nat, edge: Instant)
    requires width > 0
    ensures PricesIn(points + [p], origin, width, edge) ==
      PricesIn(points, origin, width, edge) + if BinLabel(p.time, origin, width) == edge then [p.price] else []
  {
    assert (points + [p])[..|points|] == points;
  }

  /** A bin is non-empty exactly when some point falls in it. */
  lemma {:induction false} PricesInNonEmpty(points: seq<Point>, origin: Instant, width: nat, edge: Instant)
    requires width > 0
    ensures |PricesIn(points, origin, width, edge)| > 0 <==>
      exists i :: 0 <= i < |points| && BinLabel(points[i].time, origin, width) == edge
    decreases |points|
  {
    if points != [] {
      var n := |points| - 1;
      PricesInNonEmpty(points[..n], origin, width, edge);
      assert forall i :: 0 <= i < n ==> points[..n][i] == points[i];
    }
  }

  /**
   * What `resample(w).mean().dropna()` returns for the points: the labels of the
   * non-empty bins in strictly ascending order, each paired with the mean of the
   * prices in its bin, and no point whose bin is missing.
   */
  ghost predicate IsBinning(points: seq<Point>, width: nat, b: Binned)
    requires width > 0
  {
    && |b.times| == |b.prices|
    && (forall i, j :: 0 <= i < j < |b.times| ==> b.times[i] < b.times[j])
    && (points == [] ==> b.times == [])
    && (points != [] ==>
         var origin := Origin(points);
         && (forall i :: 0 <= i < |b.times| ==>
               && |PricesIn(points, origin, width, b.times[i])| > 0
               && b.prices[i] == Mean(PricesIn(points, origin, width, b.times[i])))
         && (forall i :: 0 <= i < |points| ==> BinLabel(points[i].time, origin, width) in b.times))
  }

  /** Between two different multiples of `w` lies at least `w`. */
  lemma {:induction false} MultiplesApart(a: int, b: int, width: nat)
    requires width > 0 && a < b
    ensures a * width + width <= b * width
    decreases b - a
  {
    if a + 1 < b {
      MultiplesApart(a, b - 1, width);
      assert (b - 1) * width + width == b * width;
    } else {
      assert (a + 1) * width == a * width + width;
    }
  }

  /** No time at or after the origin falls in a bin before it. */
  lemma {:induction false} NoBinBeforeOrigin(t: Instant, origin: Instant, width: nat)
    requires width > 0 && origin <= t
    ensures origin <= BinLabel(t, origin, width)
  {
    var q := BinIndex(t, origin, width);
    if q < 0 {
      MultiplesApart(q, 0, width);
    }
  }

  /** The grid point after `origin + k * w` is `w` further on. */
  lemma {:induction false} NextGridPoint(origin: Instant, width: nat, k: int)
    ensures origin + k * width + width == origin + (k + 1) * width
  {
  }

  /** A bin edge less than `w` after the grid point `origin + k * w` is that grid point. */
  lemma {:induction false} SameGridPoint(t: Instant, origin: Instant, width: nat, k: int)
    requires width > 0
    requires origin + k * width <= BinLabel(t, origin, width) < origin + k * width + width
    ensures BinLabel(t, origin, width) == origin + k * width
  {
    var q := BinIndex(t, origin, width);
    if q < k {
      MultiplesApart(q, k, width);
    } else if k < q {
      MultiplesApart(k, q, width);
    }
  }

  /**
   * Adds up one bin: the sum and the number of the prices whose time falls in
   * the bin labelled `edge`.
   */
  method SumAndCount(points: seq<Point>, origin: Instant, width: nat, edge: Instant)
    returns (sum: real, count: nat)
    requires width > 0
    ensures sum == Sum(PricesIn(points, origin, width, edge))
    ensures count == |PricesIn(points, origin, width, edge)|
  {
    sum, count := 0.0, 0;
    var j := 0;
    while j < |points|
      invariant 0 <= j <= |points|
      invariant sum == Sum(PricesIn(points[..j], origin, width, edge))
      invariant count == |PricesIn(points[..j], origin, width, edge)|
    {
      ghost var before := PricesIn(points[..j], origin, width, edge);
      assert points[..j + 1][..j] == points[..j];
      if BinLabel(points[j].time, origin, width) == edge {
        assert PricesIn(points[..j + 1], origin, width, edge) == before + [points[j].price];
        assert (before + [points[j].price])[..|before|] == before;
        sum, count := sum + points[j].price, count + 1;
      } else {
        assert PricesIn(points[..j + 1], origin, width, edge) == before + [];
        assert before + [] == before;
      }
      j := j + 1;
    }
    assert points[..j] == points;
  }

  /** Points whose bin is below the grid point `k` are covered, and so is bin `k` when it is not empty: then so is every bin below `k + 1`. */
  lemma {:induction false} NextBinCovered(points: seq<Point>, origin: Instant, width: nat, k: int, times: seq<Instant>)
    requires width > 0
    requires forall i :: 0 <= i < |points| && BinLabel(points[i].time, origin, width) < origin + k * width ==>
      BinLabel(points[i].time, origin, width) in times
    requires |PricesIn(points, origin, width, origin + k * width)| > 0 ==> origin + k * width in times
    ensures forall i :: 0 <= i < |points| && BinLabel(points[i].time, origin, width) < origin + k * width + width ==>
      BinLabel(points[i].time, origin, width) in times
  {
    forall i | 0 <= i < |points| && BinLabel(points[i].time, origin, width) < origin + k * width + width
      ensures BinLabel(points[i].time, origin, width) in times
    {
      if BinLabel(points[i].time, origin, width) >= origin + k * width {
        SameGridPoint(points[i].time, origin, width, k);
        PricesInNonEmpty(points, origin, width, origin + k * width);
      }
    }
  }

  /**
   * The loop's progress: the non-empty bins below `start`, ascending, with their
   * means, and every point whose bin lies below `start` accounted for.
   */
  ghost predicate BinnedBelow(points: seq<Point>, origin: Instant, width: nat, start: Instant,
                              times: seq<Instant>, means: seq<real>)
    requires width > 0
  {
    && |times| == |means|
    && (forall i, j :: 0 <= i < j < |times| ==> times[i] < times[j])
    && (forall i :: 0 <= i < |times| ==> times[i] < start)
    && (forall i :: 0 <= i < |times| ==>
          && |PricesIn(points, origin, width, times[i])| > 0
          && means[i] == Mean(PricesIn(points, origin, width, times[i])))
    && (forall i :: 0 <= i < |points| && BinLabel(points[i].time, origin, width) < start ==>
          BinLabel(points[i].time, origin, width) in times)
  }

  /** Handling the bin at grid point `k` extends the progress by one bin. */
  lemma {:induction false} BinStep(points: seq<Point>, origin: Instant, width: nat, k: int,
                times: seq<Instant>, means: seq<real>, sum: real, count: nat)
    requires width > 0
    requires BinnedBelow(points, origin, width, origin + k * width, times, means)
    requires sum == Sum(PricesIn(points, origin, width, origin + k * width))
    requires count == |PricesIn(points, origin, width, origin + k * width)|
    ensures count > 0 ==>
      BinnedBelow(points, origin, width, origin + (k + 1) * width,
                  times + [origin + k * width], means + [sum / count as real])
    ensures count == 0 ==> BinnedBelow(points, origin, width, origin + (k + 1) * width, times, means)
  {
    var start := origin + k * width;
    NextGridPoint(origin, width, k);
    if count > 0 {
      NextBinCovered(points, origin, width, k, times + [start]);
      BinExtend(points, origin, width, start, times, means, sum / count as real);
    } else {
      NextBinCovered(points, origin, width, k, times);
      BinKeep(points, origin, width, start, start + width, times, means);
    }
  }

  /** A non-empty bin at `start`, with its mean, extends the progress up to the next bin. */
  lemma {:induction false} BinExtend(points: seq<Point>, origin: Instant, width: nat, start: Instant,
                                     times: seq<Instant>, means: seq<real>, m: real)
    requires width > 0
    requires BinnedBelow(points, origin, width, start, times, means)
    requires |PricesIn(points, origin, width, start)| > 0 && m == Mean(PricesIn(points, origin, width, start))
    requires forall i :: 0 <= i < |points| && BinLabel(points[i].time, origin, width) < start + width ==>
      BinLabel(points[i].time, origin, width) in times + [start]
    ensures BinnedBelow(points, origin, width, start + width, times + [start], means + [m])
  {
    var times', means' := times + [start], means + [m];
    assert forall i :: 0 <= i < |times| ==> times'[i] == times[i] && means'[i] == means[i];
  }

  /** An empty bin leaves the progress as it is, up to the next bin. */
  lemma {:induction false} BinKeep(points: seq<Point>, origin: Instant, width: nat, start: Instant, next: Instant,
                                   times: seq<Instant>, means: seq<real>)
    requires width > 0
    requires BinnedBelow(points, origin, width, start, times, means) && start <= next
    requires forall i :: 0 <= i < |points| && BinLabel(points[i].time, origin, width) < next ==>
      BinLabel(points[i].time, origin, width) in times
    ensures BinnedBelow(points, origin, width, next, times, means)
  {
  }

  /** Once the grid has passed the latest point, the progress is the whole binning. */
  lemma {:induction false} BinsDone(points: seq<Point>, width: nat, start: Instant, times: seq<Instant>, means: seq<real>)
    requires width > 0 && |points| > 0
    requires BinnedBelow(points, Origin(points), width, start, times, means)
    requires Latest(points) < start
    ensures IsBinning(points, width, Binned(times, means))
  {
    var origin := Origin(points);
    forall i | 0 <= i < |points| ensures BinLabel(points[i].time, origin, width) < start {
      assert points[i].time <= Latest(points);
    }
  }

  /** Before the first bin nothing is binned and no point is left behind. */
  lemma {:induction false} BinsStart(points: seq<Point>, width: nat)
    requires width > 0 && |points| > 0
    ensures BinnedBelow(points, Origin(points), width, Origin(points), [], [])
  {
    var origin := Origin(points);
    forall i | 0 <= i < |points| ensures origin <= BinLabel(points[i].time, origin, width) {
      NoBinBeforeOrigin(points[i].time, origin, width);
    }
  }

  /**
   * Walks the bins `[origin + k * w, origin + (k + 1) * w)` from `k = 0` until the
   * grid passes `last`, keeping the mean of each bin that holds a point.
   */
  method WalkBins(points: seq<Point>, origin: Instant, width: nat, last: Instant)
    returns (times: seq<Instant>, means: seq<real>, ghost start: Instant)
    requires width > 0
    requires BinnedBelow(points, origin, width, origin, [], [])
    ensures last < start && BinnedBelow(points, origin, width, start, times, means)
  {
    times, means := [], [];
    start := origin;
    var edge := origin;
    ghost var k := 0;
    assert origin + k * width == origin;
    while edge <= last
      invariant edge == start == origin + k * width
      invariant BinnedBelow(points, origin, width, edge, times, means)
      decreases last - edge
    {
      var sum, count := SumAndCount(points, origin, width, edge);
      BinStep(points, origin, width, k, times, means, sum, count);
      NextGridPoint(origin, width, k);
      if count > 0 {
        times, means := times + [edge], means + [sum / count as real];
      }
      edge, k := edge + width, k + 1;
      start := edge;
    }
  }

  /**
   * The resampling: lays the grid from the origin, walks it up to the latest
   * point, and keeps the mean of each bin that holds a point.
   */
  method Resample(points: seq<Point>, width: nat) returns (b: Binned)
    requires width > 0
    ensures IsBinning(points, width, b)
  {
    if points == [] {
      return Binned([], []);
    }
    BinsStart(points, width);
    var times, means, start := WalkBins(points, Origin(points), width, Latest(points));
    BinsDone(points, width, start, times, means);
    b := Binned(times, means);
  }

  /**
   * `bin_time_price_data(times, prices, bin_size)` with `bin_size` a whole number
   * of seconds: fails as the frame constructor and `iloc[0]` do, and otherwise
   * returns the binning of the rows whose time is not NaT.
   */
  method BinTimePriceData(col: TimeColumn, prices: seq<real>, widthSeconds: nat,
                          toDatetime: string -> Option<Stamp>)
    returns (r: Result<Binned, BinError>)
    requires widthSeconds > 0
    ensures ColumnLength(col) != |prices| <==> r == Failure(LengthMismatch)
    ensures ColumnLength(col) == |prices| == 0 <==> r == Failure(EmptyInput)
    ensures r.Success? <==> ColumnLength(col) == |prices| && |prices| > 0
    ensures r.Success? ==>
      && ColumnLength(col) == |prices|
      && IsBinning(Points(ParsedTimes(col, toDatetime), prices), widthSeconds * MicrosPerSecond, r.value)
  {
    if ColumnLength(col) != |prices| {
      return Failure(LengthMismatch);
    }
    if |prices| == 0 {
      return Failure(EmptyInput);
    }
    var stamps := ParsedTimes(col, toDatetime);
    var points := Points(stamps, prices);
    var binned := Resample(points, widthSeconds * MicrosPerSecond);
    return Success(binned);
  }

  /** Strictly ascending sequences with the same elements are the same sequence. */
  lemma {:induction false} AscendingUnique(a: seq<Instant>, b: seq<Instant>)
    requires forall i, j :: 0 <= i < j < |a| ==> a[i] < a[j]
    requires forall i, j :: 0 <= i < j < |b| ==> b[i] < b[j]
    requires forall x :: x in a <==> x in b
    ensures a == b
    decreases |a|
  {
    if a != [] {
      assert a[0] in a;
    }
    if b != [] {
      assert b[0] in b;
    }
    if a != [] && b != [] {
      assert a[0] == b[0] by {
        assert a[0] in b && b[0] in a;
      }
      forall x ensures x in a[1..] <==> x in b[1..] {
        if x in a[1..] {
          assert x in b && x != b[0];
        }
        if x in b[1..] {
          assert x in a && x != a[0];
        }
      }
      AscendingUnique(a[1..], b[1..]);
      assert a == [a[0]] + a[1..] && b == [b[0]] + b[1..];
    }
  }

  /** The binning is determined by the points: the resampling has one possible answer. */
  lemma {:induction false} BinningUnique(points: seq<Point>, width: nat, b1: Binned, b2: Binned)
    requires width > 0
    requires IsBinning(points, width, b1) && IsBinning(points, width, b2)
    ensures b1 == b2
  {
    if points != [] {
      var origin := Origin(points);
      forall x ensures x in b1.times <==> x in b2.times {
        PricesInNonEmpty(points, origin, width, x);
      }
      AscendingUnique(b1.times, b2.times);
      forall i | 0 <= i < |b1.prices| ensures b1.prices[i] == b2.prices[i] {
        assert b1.times[i] == b2.times[i];
      }
    }
  }

  /** A single point gives exactly one bin, whose mean is that point's price. */
  lemma {:induction false} SinglePoint(p: Point, width: nat, b: Binned)
    requires width > 0
    requires IsBinning([p], width, b)
    ensures |b.times| == 1 && b.prices == [p.price]
    ensures b.times[0] <= p.time < b.times[0] + width
  {
    var origin := Origin([p]);
    var l := BinLabel(p.time, origin, width);
    assert l in b.times;
    forall i | 0 <= i < |b.times| ensures b.times[i] == l {
      PricesInNonEmpty([p], origin, width, b.times[i]);
    }
    forall x ensures x in b.times <==> x in [l] {
      PricesInNonEmpty([p], origin, width, x);
    }
    AscendingUnique(b.times, [l]);
    var prices := PricesIn([p], origin, width, l);
    PricesInAppend([], p, origin, width, l);
    assert [] + [p] == [p];
    assert prices == [p.price];
    assert Sum(prices) == p.price;
  }

  /** Two points five seconds apart, the first at midnight. */
  const TwoPoints: seq<Point> := [Point(0, 10.0), Point(5 * MicrosPerSecond, 20.0)]

  /** The day of the two points starts at midnight, and both fall in the first ten-second bin. */
  lemma {:induction false} TwoPointsOrigin()
    ensures Origin(TwoPoints) == 0
    ensures forall i :: 0 <= i < |TwoPoints| ==> BinLabel(TwoPoints[i].time, 0, 10 * MicrosPerSecond) == 0
  {
    assert TwoPoints[..1] == [TwoPoints[0]];
    assert Earliest(TwoPoints) == 0;
    assert BinLabel(TwoPoints[0].time, 0, 10 * MicrosPerSecond) == 0;
    assert BinLabel(TwoPoints[1].time, 0, 10 * MicrosPerSecond) == 0;
  }

  /** That bin collects both prices, in order. */
  lemma {:induction false} TwoPointsShareBin()
    ensures Origin(TwoPoints) == 0
    ensures forall i :: 0 <= i < |TwoPoints| ==> BinLabel(TwoPoints[i].time, 0, 10 * MicrosPerSecond) == 0
    ensures PricesIn(TwoPoints, 0, 10 * MicrosPerSecond, 0) == [10.0, 20.0]
  {
    var width := 10 * MicrosPerSecond;
    var p0, p1 := TwoPoints[0], TwoPoints[1];
    TwoPointsOrigin();
    assert BinLabel(p0.time, 0, width) == 0 && BinLabel(p1.time, 0, width) == 0;
    PricesInAppend([], p0, 0, width, 0);
    assert [] + [p0] == [p0];
    assert PricesIn([p0], 0, width, 0) == [10.0];
    PricesInAppend([p0], p1, 0, width, 0);
    assert [p0] + [p1] == TwoPoints;
  }

  /** The prices 10 and 20 average to 15. */
  lemma {:induction false} TwoPricesMean()
    ensures Mean([10.0, 20.0]) == 15.0
  {
    var prices := [10.0, 20.0];
    assert prices[..1] == [10.0] && [10.0][..0] == [];
    assert Sum([10.0]) == 10.0;
    assert Sum(prices) == 30.0;
  }

  /** One bin at midnight with mean 15 is a binning of the two points. */
  lemma {:induction false} TwoPointsExpected()
    ensures IsBinning(TwoPoints, 10 * MicrosPerSecond, Binned([0], [15.0]))
  {
    TwoPointsShareBin();
    TwoPricesMean();
  }

  /**
   * Two points five seconds apart in a ten-second bin that starts at midnight
   * give one bin of mean 15.
   */
  lemma {:induction false} TwoPointsOneBin(b: Binned)
    requires IsBinning(TwoPoints, 10 * MicrosPerSecond, b)
    ensures b == Binned([0], [15.0])
  {
    TwoPointsExpected();
    BinningUnique(TwoPoints, 10 * MicrosPerSecond, b, Binned([0], [15.0]));
  }
}
