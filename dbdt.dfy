/**
  The dB/dt computation of the processor: a table of (timestamp, value)
  rows becomes the series of absolute rates |Δvalue / Δminutes|, whose
  first entry is undefined (pandas' leading NaN, here None); the result
  is the maximum of the defined entries among the last 15, or 0.0.
*/
module DbDt {
  import opened Wrappers

  /** One row of a parsed magnetometer file: timestamp in seconds, field value in nT. */
  datatype Row = Row(timestamp: real, value: real)

  /**
    A parsed table.  The flags say whether the file had a `timestamp`
    and a `value` column; a row's field for an absent column is ignored.
  */
  datatype Frame = Frame(rows: seq<Row>, hasTimestamp: bool, hasValue: bool)

  /** The series holds this many trailing entries (15 one-minute samples). */
  const TailLength: nat := 15

  predicate StrictlyIncreasing(rows: seq<Row>) {
    forall i | 0 < i < |rows| :: rows[i - 1].timestamp < rows[i].timestamp
  }

  /** What the computation demands: a timestamp column never repeats or goes backwards. */
  predicate WellFormed(f: Frame) {
    f.hasTimestamp ==> StrictlyIncreasing(f.rows)
  }

  function Abs(x: real): (r: real)
    ensures r >= 0.0 && (r == x || r == -x)
  {
    if x < 0.0 then -x else x
  }

  /** The time step ending at row i, in minutes; 1 minute when there is no timestamp column. */
  function MinutesBetween(f: Frame, i: nat): (dt: real)
    requires WellFormed(f) && 0 < i < |f.rows|
    ensures dt > 0.0
    ensures !f.hasTimestamp ==> dt == 1.0
    ensures f.hasTimestamp ==> dt * 60.0 == f.rows[i].timestamp - f.rows[i - 1].timestamp
  {
    if f.hasTimestamp then (f.rows[i].timestamp - f.rows[i - 1].timestamp) / 60.0 else 1.0
  }

  /** The rate of change ending at row i. */
  function Rate(f: Frame, i: nat): (r: real)
    requires WellFormed(f) && 0 < i < |f.rows|
    ensures r >= 0.0
  {
    Abs((f.rows[i].value - f.rows[i - 1].value) / MinutesBetween(f, i))
  }

  /** The series `abs(diff(value) / time_diff)`: undefined at position 0. */
  function Series(f: Frame): (s: seq<Option<real>>)
    requires WellFormed(f)
    ensures |s| == |f.rows|
    ensures |s| > 0 ==> s[0] == None
    ensures forall i | 0 < i < |s| :: s[i] == Some(Rate(f, i))
  {
    seq(|f.rows|, i requires 0 <= i < |f.rows| => if i == 0 then None else Some(Rate(f, i)))
  }

  /** The last k entries of s (all of s when it is shorter). */
  function Tail<T>(s: seq<T>, k: nat): (r: seq<T>)
    ensures |r| == if |s| <= k then |s| else k
    ensures forall j | 0 <= j < |r| :: r[j] == s[|s| - |r| + j]
  {
    if |s| <= k then s else s[|s| - k..]
  }

  /** Maximum of the defined entries, skipping undefined ones as pandas skips NaN. */
  function MaxDefined(s: seq<Option<real>>): (m: Option<real>)
    ensures m.None? <==> forall i | 0 <= i < |s| :: s[i].None?
    ensures m.Some? ==> exists i | 0 <= i < |s| :: s[i] == m
    ensures m.Some? ==> forall i | 0 <= i < |s| && s[i].Some? :: s[i].value <= m.value
  {
    if |s| == 0 then None
    else
      var rest := MaxDefined(s[1..]);
      assert forall i | 1 <= i < |s| :: s[i] == s[1..][i - 1];
      match s[0]
      case None => rest
      case Some(x) =>
        if rest.Some? && rest.value > x then rest else Some(x)
  }

  /** The trailing entries of the series that the maximum is taken over. */
  function Recent(f: Frame): (s: seq<Option<real>>)
    requires WellFormed(f)
    ensures |s| == if |f.rows| <= TailLength then |f.rows| else TailLength
  {
    Tail(Series(f), TailLength)
  }

  /**
    calculate_dbdt: 0.0 for fewer than two rows or no value column,
    otherwise the maximum over the last 15 series entries, with an
    all-undefined maximum replaced by 0.0.
  */
  function CalculateDbdt(f: Frame): (r: real)
    requires WellFormed(f)
    ensures r >= 0.0
    ensures |f.rows| < 2 || !f.hasValue ==> r == 0.0
  {
    if |f.rows| < 2 then 0.0
    else if !f.hasValue then 0.0
    else
      var recent := Recent(f);
      if |recent| == 0 then 0.0
      else
        match MaxDefined(recent)
        case None => 0.0
        case Some(m) => m
  }

  /** First row index whose rate lies in the trailing window of the series. */
  function WindowStart(n: nat): (lo: nat)
    ensures lo >= 1 && (n >= 2 ==> lo < n)
    ensures n > TailLength ==> lo == n - TailLength
  {
    if n > TailLength then n - TailLength else 1
  }

  /** Entry j of the trailing entries is the series entry of row |rows| - |Recent(f)| + j. */
  lemma RecentAt(f: Frame, j: nat)
    requires WellFormed(f) && j < |Recent(f)|
    ensures var i := |f.rows| - |Recent(f)| + j;
      if i == 0 then Recent(f)[j] == None else Recent(f)[j] == Some(Rate(f, i))
  {
  }

  /** The result, when the guards pass, is the maximum of the trailing entries. */
  lemma CalculateDbdtIsMaxOfRecent(f: Frame)
    requires WellFormed(f) && |f.rows| >= 2 && f.hasValue
    ensures MaxDefined(Recent(f)) == Some(CalculateDbdt(f))
  {
    var recent := Recent(f);
    RecentAt(f, |recent| - 1);
    assert recent[|recent| - 1].Some?;
  }

  /** With the guards passed, the result bounds the rate of every row of the trailing window. */
  lemma CalculateDbdtBoundsWindow(f: Frame)
    requires WellFormed(f) && |f.rows| >= 2 && f.hasValue
    ensures forall i | WindowStart(|f.rows|) <= i < |f.rows| :: Rate(f, i) <= CalculateDbdt(f)
  {
    var n := |f.rows|;
    var off := n - |Recent(f)|;
    CalculateDbdtIsMaxOfRecent(f);
    forall i | WindowStart(n) <= i < n ensures Rate(f, i) <= CalculateDbdt(f) {
      RecentAt(f, i - off);
    }
  }

  /** With the guards passed, the result is the rate of some row of the trailing window. */
  lemma CalculateDbdtAttainedInWindow(f: Frame)
    requires WellFormed(f) && |f.rows| >= 2 && f.hasValue
    ensures exists i | WindowStart(|f.rows|) <= i < |f.rows| :: Rate(f, i) == CalculateDbdt(f)
  {
    var recent := Recent(f);
    var off := |f.rows| - |recent|;
    CalculateDbdtIsMaxOfRecent(f);
    var j :| 0 <= j < |recent| && recent[j] == Some(CalculateDbdt(f));
    RecentAt(f, j);
    assert off + j >= WindowStart(|f.rows|);
    assert Rate(f, off + j) == CalculateDbdt(f);
  }

  /**
    With two or more rows and a value column, the result is exactly the
    maximum rate over the trailing window: with every reading present
    (rows carry no NaN values) the 0.0 fallback for an all-undefined
    maximum does not apply.
  */
  lemma CalculateDbdtIsWindowMax(f: Frame)
    requires WellFormed(f) && |f.rows| >= 2 && f.hasValue
    ensures forall i | WindowStart(|f.rows|) <= i < |f.rows| :: Rate(f, i) <= CalculateDbdt(f)
    ensures exists i | WindowStart(|f.rows|) <= i < |f.rows| :: Rate(f, i) == CalculateDbdt(f)
  {
    CalculateDbdtBoundsWindow(f);
    CalculateDbdtAttainedInWindow(f);
  }

  /** Without a timestamp column each rate is the plain one-minute difference. */
  lemma RateWithoutTimestamps(f: Frame, i: nat)
    requires !f.hasTimestamp && 0 < i < |f.rows|
    ensures Rate(f, i) == Abs(f.rows[i].value - f.rows[i - 1].value)
  {
  }

  /** Dropping leading rows keeps a frame well formed. */
  lemma SuffixWellFormed(f: Frame, d: nat)
    requires WellFormed(f) && d <= |f.rows|
    ensures WellFormed(f.(rows := f.rows[d..]))
  {
    var g := f.(rows := f.rows[d..]);
    if f.hasTimestamp {
      forall i | 0 < i < |g.rows| ensures g.rows[i - 1].timestamp < g.rows[i].timestamp {
        assert g.rows[i - 1] == f.rows[d + i - 1] && g.rows[i] == f.rows[d + i];
      }
    }
  }

  /** Dropping leading rows shifts the rates and changes none of them. */
  lemma SuffixRate(f: Frame, d: nat, i: nat)
    requires WellFormed(f) && d <= |f.rows| && 0 < i < |f.rows| - d
    ensures WellFormed(f.(rows := f.rows[d..]))
    ensures Rate(f.(rows := f.rows[d..]), i) == Rate(f, d + i)
  {
    SuffixWellFormed(f, d);
    var g := f.(rows := f.rows[d..]);
    assert g.rows[i] == f.rows[d + i] && g.rows[i - 1] == f.rows[d + i - 1];
    assert MinutesBetween(g, i) == MinutesBetween(f, d + i);
  }

  /** Keeping the last 16 rows keeps every trailing entry of the series. */
  lemma TrailingRowsRecentAt(f: Frame, j: nat)
    requires WellFormed(f) && |f.rows| > TailLength + 1 && j < TailLength
    ensures var g := f.(rows := f.rows[|f.rows| - TailLength - 1..]);
      WellFormed(g) && Recent(g)[j] == Recent(f)[j]
  {
    var d := |f.rows| - TailLength - 1;
    SuffixWellFormed(f, d);
    RecentAt(f, j);
    RecentAt(f.(rows := f.rows[d..]), j);
    SuffixRate(f, d, j + 1);
  }

  /** Only the last 16 rows (15 differences) can influence the result. */
  lemma CalculateDbdtDependsOnTrailingRows(f: Frame)
    requires WellFormed(f) && |f.rows| > TailLength + 1
    ensures var g := f.(rows := f.rows[|f.rows| - TailLength - 1..]);
      WellFormed(g) && CalculateDbdt(g) == CalculateDbdt(f)
  {
    var g := f.(rows := f.rows[|f.rows| - TailLength - 1..]);
    SuffixWellFormed(f, |f.rows| - TailLength - 1);
    forall j | 0 <= j < TailLength ensures Recent(g)[j] == Recent(f)[j] {
      TrailingRowsRecentAt(f, j);
    }
    assert Recent(g) == Recent(f);
  }

  /** Two samples one minute apart whose values differ by 10 nT give 10 nT/min. */
  lemma TwoSamplesOneMinuteApart()
    ensures var f := Frame([Row(0.0, 100.0), Row(60.0, 110.0)], true, true);
      WellFormed(f) && CalculateDbdt(f) == 10.0
  {
    var f := Frame([Row(0.0, 100.0), Row(60.0, 110.0)], true, true);
    assert Rate(f, 1) == 10.0;
    CalculateDbdtIsWindowMax(f);
  }
}
