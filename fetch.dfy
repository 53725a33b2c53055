/**
  fetch_magnetometer_data without the network: choose the latest recent
  file of a station, take its parsed table, sort it by timestamp and,
  for windows shorter than a day, keep the rows at or after the cutoff.
*/
module Fetch {
  import opened Wrappers
  import opened DbDt
  import opened KeySelect

  predicate SortedByTimestamp(rows: seq<Row>) {
    forall i | 0 < i < |rows| :: rows[i - 1].timestamp <= rows[i].timestamp
  }

  predicate DistinctTimestamps(rows: seq<Row>) {
    forall i, j | 0 <= i < j < |rows| :: rows[i].timestamp != rows[j].timestamp
  }

  /** Insert row x before the first row whose timestamp it does not exceed. */
  function InsertRow(x: Row, rows: seq<Row>): (r: seq<Row>)
    ensures multiset(r) == multiset(rows) + multiset{x}
    ensures |r| == |rows| + 1
    ensures r[0] == x || (|rows| > 0 && r[0] == rows[0])
  {
    if |rows| == 0 then [x]
    else if x.timestamp <= rows[0].timestamp then [x] + rows
    else
      assert rows == [rows[0]] + rows[1..];
      [rows[0]] + InsertRow(x, rows[1..])
  }

  lemma {:induction false} InsertRowSorted(x: Row, rows: seq<Row>)
    requires SortedByTimestamp(rows)
    ensures SortedByTimestamp(InsertRow(x, rows))
    decreases |rows|
  {
    if |rows| > 0 && x.timestamp > rows[0].timestamp {
      InsertRowSorted(x, rows[1..]);
    }
  }

  lemma {:induction false} InsertRowStrict(x: Row, rows: seq<Row>)
    requires StrictlyIncreasing(rows)
    requires forall k | 0 <= k < |rows| :: rows[k].timestamp != x.timestamp
    ensures StrictlyIncreasing(InsertRow(x, rows))
    decreases |rows|
  {
    if |rows| > 0 && x.timestamp > rows[0].timestamp {
      InsertRowStrict(x, rows[1..]);
    }
  }

  /** `sort_values('timestamp')`, as a stable insertion sort. */
  function SortByTimestamp(rows: seq<Row>): (r: seq<Row>)
    ensures multiset(r) == multiset(rows)
    ensures |r| == |rows|
  {
    if |rows| == 0 then []
    else
      assert rows == [rows[0]] + rows[1..];
      InsertRow(rows[0], SortByTimestamp(rows[1..]))
  }

  lemma {:induction false} SortByTimestampSorted(rows: seq<Row>)
    ensures SortedByTimestamp(SortByTimestamp(rows))
  {
    if |rows| > 0 {
      SortByTimestampSorted(rows[1..]);
      InsertRowSorted(rows[0], SortByTimestamp(rows[1..]));
    }
  }

  /** Rows with pairwise distinct timestamps sort into strictly increasing order. */
  lemma {:induction false} SortByTimestampStrict(rows: seq<Row>)
    requires DistinctTimestamps(rows)
    ensures StrictlyIncreasing(SortByTimestamp(rows))
  {
    if |rows| > 0 {
      var rest := rows[1..];
      var t := SortByTimestamp(rest);
      assert DistinctTimestamps(rest) by {
        forall i, j | 0 <= i < j < |rest| ensures rest[i].timestamp != rest[j].timestamp {
          assert rest[i] == rows[i + 1] && rest[j] == rows[j + 1];
        }
      }
      SortByTimestampStrict(rest);
      forall k | 0 <= k < |t| ensures t[k].timestamp != rows[0].timestamp {
        assert t[k] in multiset(rest);
        var m :| 0 <= m < |rest| && rest[m] == t[k];
        assert rest[m] == rows[m + 1];
      }
      InsertRowStrict(rows[0], t);
    }
  }

  /** Sorting rows that are already in timestamp order changes nothing (the sort is stable). */
  lemma {:induction false} SortOfSortedIsIdentity(rows: seq<Row>)
    requires SortedByTimestamp(rows)
    ensures SortByTimestamp(rows) == rows
  {
    if |rows| > 0 {
      SortOfSortedIsIdentity(rows[1..]);
      assert rows == [rows[0]] + rows[1..];
    }
  }

  /** `data[data['timestamp'] >= cutoff]`: the rows at or after the cutoff, in order. */
  function SinceCutoff(rows: seq<Row>, cutoff: real): (r: seq<Row>)
    ensures forall k | 0 <= k < |r| :: r[k].timestamp >= cutoff
    ensures forall k | 0 <= k < |r| :: r[k] in rows
    ensures forall k | 0 <= k < |rows| && rows[k].timestamp >= cutoff :: rows[k] in r
  {
    if |rows| == 0 then []
    else
      var rest := SinceCutoff(rows[1..], cutoff);
      assert forall k | 1 <= k < |rows| :: rows[k] == rows[1..][k - 1];
      if rows[0].timestamp >= cutoff then [rows[0]] + rest else rest
  }

  /** The filter keeps every copy of each row at or after the cutoff and no copy of any other row. */
  lemma {:induction false} SinceCutoffCounts(rows: seq<Row>, cutoff: real)
    ensures forall x :: multiset(SinceCutoff(rows, cutoff))[x]
                        == if x.timestamp >= cutoff then multiset(rows)[x] else 0
  {
    if |rows| > 0 {
      SinceCutoffCounts(rows[1..], cutoff);
      assert rows == [rows[0]] + rows[1..];
    }
  }

  /** Rows sorted by timestamp lose only a prefix to the cutoff filter. */
  lemma {:induction false} SinceCutoffOfSortedIsSuffix(rows: seq<Row>, cutoff: real)
    requires SortedByTimestamp(rows)
    ensures exists d | 0 <= d <= |rows| :: SinceCutoff(rows, cutoff) == rows[d..]
    decreases |rows|
  {
    if |rows| == 0 {
      assert SinceCutoff(rows, cutoff) == rows[0..];
    } else if rows[0].timestamp >= cutoff {
      AllAtOrAfterCutoffKept(rows, cutoff);
      assert SinceCutoff(rows, cutoff) == rows[0..];
    } else {
      SinceCutoffOfSortedIsSuffix(rows[1..], cutoff);
      var d :| 0 <= d <= |rows[1..]| && SinceCutoff(rows[1..], cutoff) == rows[1..][d..];
      assert rows[1..][d..] == rows[d + 1..];
    }
  }

  lemma {:induction false} AllAtOrAfterCutoffKept(rows: seq<Row>, cutoff: real)
    requires SortedByTimestamp(rows) && |rows| > 0 && rows[0].timestamp >= cutoff
    ensures SinceCutoff(rows, cutoff) == rows
    decreases |rows|
  {
    if |rows| > 1 {
      AllAtOrAfterCutoffKept(rows[1..], cutoff);
      assert rows == [rows[0]] + rows[1..];
    }
  }

  /** The cutoff filter keeps sorted rows sorted. */
  lemma SinceCutoffSorted(rows: seq<Row>, cutoff: real)
    requires SortedByTimestamp(rows)
    ensures SortedByTimestamp(SinceCutoff(rows, cutoff))
  {
    SinceCutoffOfSortedIsSuffix(rows, cutoff);
    var d :| 0 <= d <= |rows| && SinceCutoff(rows, cutoff) == rows[d..];
    var r := rows[d..];
    forall i | 0 < i < |r| ensures r[i - 1].timestamp <= r[i].timestamp {
      assert r[i - 1] == rows[d + i - 1] && r[i] == rows[d + i];
    }
  }

  /** The cutoff filter keeps strictly increasing rows strictly increasing. */
  lemma SinceCutoffStrict(rows: seq<Row>, cutoff: real)
    requires StrictlyIncreasing(rows)
    ensures StrictlyIncreasing(SinceCutoff(rows, cutoff))
  {
    assert SortedByTimestamp(rows);
    SinceCutoffOfSortedIsSuffix(rows, cutoff);
    var d :| 0 <= d <= |rows| && SinceCutoff(rows, cutoff) == rows[d..];
    SuffixWellFormed(Frame(rows, true, true), d);
  }

  /** Seconds in an hour. */
  const SecondsPerHour: real := 3600.0

  /** `now - timedelta(hours=hours_back)`, in seconds. */
  function Cutoff(hoursBack: int, now: real): (c: real)
    ensures hoursBack >= 0 ==> c <= now
  {
    now - hoursBack as real * SecondsPerHour
  }

  /** What happens to a downloaded table: sort and, for windows under a day, cut. */
  function PrepareFrame(f: Frame, hoursBack: int, now: real): (g: Frame)
    ensures g.hasTimestamp == f.hasTimestamp && g.hasValue == f.hasValue
    ensures !f.hasTimestamp ==> g == f
  {
    if !f.hasTimestamp then f
    else
      var sorted := SortByTimestamp(f.rows);
      if hoursBack < 24 then f.(rows := SinceCutoff(sorted, Cutoff(hoursBack, now)))
      else f.(rows := sorted)
  }

  /** A prepared table with a timestamp column is sorted and respects the cutoff. */
  lemma PrepareFrameSortedAndCut(f: Frame, hoursBack: int, now: real)
    requires f.hasTimestamp
    ensures var g := PrepareFrame(f, hoursBack, now);
      && SortedByTimestamp(g.rows)
      && (hoursBack < 24 ==> forall k | 0 <= k < |g.rows| :: g.rows[k].timestamp >= Cutoff(hoursBack, now))
      && (hoursBack < 24 ==> forall x :: multiset(g.rows)[x]
                               == if x.timestamp >= Cutoff(hoursBack, now) then multiset(f.rows)[x] else 0)
      && (hoursBack < 24 ==> forall x :: x in g.rows <==> x in f.rows && x.timestamp >= Cutoff(hoursBack, now))
      && (hoursBack >= 24 ==> multiset(g.rows) == multiset(f.rows))
  {
    SortByTimestampSorted(f.rows);
    if hoursBack < 24 {
      var sorted := SortByTimestamp(f.rows);
      var c := Cutoff(hoursBack, now);
      SinceCutoffSorted(sorted, c);
      SinceCutoffCounts(sorted, c);
      var g := PrepareFrame(f, hoursBack, now);
      forall x ensures x in g.rows <==> x in f.rows && x.timestamp >= c {
        assert x in g.rows <==> multiset(g.rows)[x] > 0;
        assert x in f.rows <==> multiset(f.rows)[x] > 0;
      }
    }
  }

  /** Preparing a prepared table changes nothing. */
  lemma PrepareFrameIdempotent(f: Frame, hoursBack: int, now: real)
    ensures PrepareFrame(PrepareFrame(f, hoursBack, now), hoursBack, now) == PrepareFrame(f, hoursBack, now)
  {
    if f.hasTimestamp {
      var g := PrepareFrame(f, hoursBack, now);
      PrepareFrameSortedAndCut(f, hoursBack, now);
      SortOfSortedIsIdentity(g.rows);
      if hoursBack < 24 && |g.rows| > 0 {
        AllAtOrAfterCutoffKept(g.rows, Cutoff(hoursBack, now));
      }
    }
  }

  /**
    A table whose timestamps do not repeat is, once prepared, a valid
    input of the dB/dt computation (its timestamps strictly increase).
  */
  lemma PrepareFrameWellFormed(f: Frame, hoursBack: int, now: real)
    requires f.hasTimestamp ==> DistinctTimestamps(f.rows)
    ensures WellFormed(PrepareFrame(f, hoursBack, now))
  {
    if f.hasTimestamp {
      SortByTimestampStrict(f.rows);
      if hoursBack < 24 {
        SinceCutoffStrict(SortByTimestamp(f.rows), Cutoff(hoursBack, now));
      }
    }
  }

  /** The sorted recent keys of a listing, as get_recent_files_for_station returns them. */
  function RecentFiles(listing: Listing, recentMonths: set<string>): (files: seq<string>)
    ensures SortedKeys(files)
    ensures forall k :: k in files <==> listing.Listed? && k in listing.keys && IsRecent(k, recentMonths)
  {
    if listing.Listed? then
      var matching := MatchingKeys(listing.keys, recentMonths);
      SortKeysSorted(matching);
      assert forall k :: k in SortKeys(matching) <==> k in multiset(SortKeys(matching));
      assert forall k :: k in matching <==> k in multiset(matching);
      SortKeys(matching)
    else []
  }

  /**
    The file chosen as latest is a listed key mentioning a recent month,
    and no other such key is greater.
  */
  lemma LatestRecentFileIsGreatest(listing: Listing, recentMonths: set<string>)
    requires |RecentFiles(listing, recentMonths)| > 0
    ensures var latest := LatestFile(RecentFiles(listing, recentMonths)).value;
      && listing.Listed? && latest in listing.keys && IsRecent(latest, recentMonths)
      && forall k | k in listing.keys && IsRecent(k, recentMonths) :: StrLe(k, latest)
  {
    var files := RecentFiles(listing, recentMonths);
    LatestIsGreatest(files);
  }

  /**
    fetch_magnetometer_data, given the listing, the recent month strings,
    the parsed table of every object that can be downloaded, the window
    in hours and the current time in seconds.  Nothing is returned when
    no recent file exists, the latest one cannot be downloaded or parsed,
    or it has no rows; otherwise the latest file's table, prepared.
  */
  method FetchMagnetometerData(listing: Listing, recentMonths: set<string>, objects: map<string, Frame>,
                               hoursBack: int, now: real) returns (data: Option<Frame>)
    ensures var latest := LatestFile(RecentFiles(listing, recentMonths));
      && (data.Some? <==> latest.Some? && latest.value in objects && |objects[latest.value].rows| > 0)
      && (data.Some? ==> data.value == PrepareFrame(objects[latest.value], hoursBack, now))
  {
    var recentFiles := GetRecentFilesForStation(listing, recentMonths);
    if |recentFiles| == 0 {
      return None;
    }
    var latestFile := recentFiles[|recentFiles| - 1];
    if latestFile !in objects {
      return None;
    }
    var table := objects[latestFile];
    if |table.rows| == 0 {
      return None;
    }
    if table.hasTimestamp {
      table := table.(rows := SortByTimestamp(table.rows));
      if hoursBack < 24 {
        var cutoff := Cutoff(hoursBack, now);
        table := table.(rows := SinceCutoff(table.rows, cutoff));
      }
    }
    data := Some(table);
  }
}
