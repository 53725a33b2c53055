/**
  Regional classification: every region of the mapping gets the peak
  dB/dt over all known stations (0.0 when there is none), a level
  0/1/2 against its effective thresholds, and the list of stations
  that contributed.  The station filter and the peak are stated for
  any set of registry codes; the classification uses the codes of
  the station registry.
*/
module Aurora {
  import opened Config

  /** One entry of the regional status dictionary (display rounding left out). */
  datatype RegionStatus = RegionStatus(
    status: string,
    level: nat,
    color: string,
    dbdtValue: real,
    thresholdNoActivity: real,
    thresholdPossible: real,
    contributingStations: seq<string>,
    displayName: string)

  /** The level of a peak: 0 below the no-activity threshold, 1 below the possible one, else 2. */
  function ClassifyLevel(peak: real, t: Thresholds): (level: nat)
    ensures level <= 2
    ensures level == 0 <==> peak < t.noActivity
    ensures level == 1 <==> t.noActivity <= peak < t.possible
    ensures level == 2 <==> t.noActivity <= peak && t.possible <= peak
  {
    if peak < t.noActivity then 0
    else if peak < t.possible then 1
    else 2
  }

  /** The status text of a level; the text alone tells the three levels apart. */
  function StatusText(level: nat): (s: string)
    requires level <= 2
    ensures s == "No Activity" <==> level == 0
    ensures s == "Possible Aurora" <==> level == 1
    ensures s == "Strong Activity Detected" <==> level == 2
  {
    if level == 0 then "No Activity"
    else if level == 1 then "Possible Aurora"
    else "Strong Activity Detected"
  }

  /** The display colour of a level; the colour alone tells the three levels apart. */
  function StatusColor(level: nat): (c: string)
    requires level <= 2
    ensures c == "#6b7280" <==> level == 0
    ensures c == "#f59e0b" <==> level == 1
    ensures c == "#dc2626" <==> level == 2
  {
    if level == 0 then "#6b7280"
    else if level == 1 then "#f59e0b"
    else "#dc2626"
  }

  /** The codes of the inputs whose code is registered, in input order. */
  function KnownStations(values: seq<(string, real)>, registry: set<string>): (codes: seq<string>)
    ensures |codes| <= |values|
    ensures forall c | c in codes :: c in registry
  {
    if |values| == 0 then []
    else
      var last := values[|values| - 1];
      KnownStations(values[..|values| - 1], registry) + (if last.0 in registry then [last.0] else [])
  }

  /** The peak of the registered inputs' values, starting from 0.0. */
  function Peak(values: seq<(string, real)>, registry: set<string>): (m: real)
    ensures m >= 0.0
    ensures forall i | 0 <= i < |values| && values[i].0 in registry :: values[i].1 <= m
    ensures m == 0.0 || exists i | 0 <= i < |values| && values[i].0 in registry :: values[i].1 == m
  {
    if |values| == 0 then 0.0
    else
      var prefix := values[..|values| - 1];
      var last := values[|values| - 1];
      var m := Peak(prefix, registry);
      assert forall i | 0 <= i < |prefix| :: prefix[i] == values[i];
      if last.0 in registry && last.1 > m then last.1 else m
  }

  /** An entry whose level and text are those its peak and thresholds determine. */
  predicate Consistent(s: RegionStatus) {
    && s.thresholdNoActivity < s.thresholdPossible
    && s.dbdtValue >= 0.0
    && s.level == ClassifyLevel(s.dbdtValue, Thresholds(s.thresholdNoActivity, s.thresholdPossible))
    && s.status == StatusText(s.level)
    && s.color == StatusColor(s.level)
  }

  /** The status of the region `config` for the given station values. */
  function RegionEntry(config: Region, values: seq<(string, real)>): (s: RegionStatus)
    ensures config.multiplier > 0.0 ==> Consistent(s)
    ensures s.dbdtValue == Peak(values, MagnetometerStations.Keys)
    ensures s.contributingStations == KnownStations(values, MagnetometerStations.Keys)
    ensures s.displayName == config.displayName
    ensures s.thresholdNoActivity == NoActivityBase * config.multiplier
    ensures s.thresholdPossible == PossibleBase * config.multiplier
  {
    var t := EffectiveThresholds(config.multiplier);
    var peak := Peak(values, MagnetometerStations.Keys);
    var level := ClassifyLevel(peak, t);
    RegionStatus(StatusText(level), level, StatusColor(level), peak,
                 t.noActivity, t.possible, KnownStations(values, MagnetometerStations.Keys), config.displayName)
  }

  /** The inner loop of determine_aurora_status: scan every input, keeping the registered stations. */
  method ScanStations(dbdtValues: seq<(string, real)>, registry: set<string>) returns (maxDbdt: real, contributing: seq<string>)
    ensures maxDbdt == Peak(dbdtValues, registry)
    ensures contributing == KnownStations(dbdtValues, registry)
  {
    maxDbdt := 0.0;
    contributing := [];
    var s := 0;
    while s < |dbdtValues|
      invariant 0 <= s <= |dbdtValues|
      invariant maxDbdt == Peak(dbdtValues[..s], registry)
      invariant contributing == KnownStations(dbdtValues[..s], registry)
    {
      assert dbdtValues[..s + 1] == dbdtValues[..s] + [dbdtValues[s]];
      PeakSnoc(dbdtValues[..s], dbdtValues[s], registry);
      KnownStationsSnoc(dbdtValues[..s], dbdtValues[s], registry);
      var (code, dbdt) := dbdtValues[s];
      if code in registry {
        maxDbdt := if dbdt > maxDbdt then dbdt else maxDbdt;
        contributing := contributing + [code];
      }
      s := s + 1;
    }
    assert dbdtValues[..s] == dbdtValues;
  }

  /** The body of the outer loop for one region: thresholds, scan, classification. */
  method ClassifyRegion(config: Region, dbdtValues: seq<(string, real)>) returns (entry: RegionStatus)
    ensures entry == RegionEntry(config, dbdtValues)
  {
    var multiplier := config.multiplier;
    var adjustedNoActivity := NoActivityBase * multiplier;
    var adjustedPossible := PossibleBase * multiplier;
    var maxDbdt, contributing := ScanStations(dbdtValues, MagnetometerStations.Keys);
    var status, level, color;
    if maxDbdt < adjustedNoActivity {
      status, level, color := "No Activity", 0, "#6b7280";
    } else if maxDbdt < adjustedPossible {
      status, level, color := "Possible Aurora", 1, "#f59e0b";
    } else {
      status, level, color := "Strong Activity Detected", 2, "#dc2626";
    }
    entry := RegionStatus(status, level, color, maxDbdt, adjustedNoActivity, adjustedPossible,
                          contributing, config.displayName);
  }

  /** Every configured region's entry is consistent and covers all registered stations. */
  lemma RegionEntryFacts(config: Region, values: seq<(string, real)>)
    requires config in RegionMapping
    ensures var s := RegionEntry(config, values);
      && Consistent(s)
      && s.contributingStations == KnownStations(values, MagnetometerStations.Keys)
      && (forall i | 0 <= i < |values| && values[i].0 in MagnetometerStations :: values[i].1 <= s.dbdtValue)
  {
    ConfiguredThresholdsOrdered();
  }

  /** A status map with the configured regions' entries has consistent entries covering all registered stations. */
  lemma {:induction false} EntriesFacts(regional: map<string, RegionStatus>, configs: seq<Region>, dbdtValues: seq<(string, real)>)
    requires forall k | k in regional :: exists c | c in configs ::
      c.multiplier > 0.0 && regional[k] == RegionEntry(c, dbdtValues)
    ensures forall k | k in regional ::
      && Consistent(regional[k])
      && regional[k].contributingStations == KnownStations(dbdtValues, MagnetometerStations.Keys)
      && (forall i | 0 <= i < |dbdtValues| && dbdtValues[i].0 in MagnetometerStations ::
            dbdtValues[i].1 <= regional[k].dbdtValue)
  {
    forall k | k in regional
      ensures && Consistent(regional[k])
              && regional[k].contributingStations == KnownStations(dbdtValues, MagnetometerStations.Keys)
              && (forall i | 0 <= i < |dbdtValues| && dbdtValues[i].0 in MagnetometerStations ::
                    dbdtValues[i].1 <= regional[k].dbdtValue)
    {
      var c :| c in configs && c.multiplier > 0.0 && regional[k] == RegionEntry(c, dbdtValues);
    }
  }

  /**
    determine_aurora_status: one entry per configured region, each built
    from all registered stations' values.
  */
  method DetermineAuroraStatus(dbdtValues: seq<(string, real)>) returns (regional: map<string, RegionStatus>)
    ensures regional.Keys == RegionNames()
    ensures forall i | 0 <= i < |RegionMapping| ::
      regional[RegionMapping[i].name] == RegionEntry(RegionMapping[i], dbdtValues)
    ensures forall k | k in regional ::
      && Consistent(regional[k])
      && regional[k].contributingStations == KnownStations(dbdtValues, MagnetometerStations.Keys)
      && (forall i | 0 <= i < |dbdtValues| && dbdtValues[i].0 in MagnetometerStations ::
            dbdtValues[i].1 <= regional[k].dbdtValue)
  {
    RegionNamesDistinct();
    ConfiguredThresholdsOrdered();
    regional := map[];
    var r := 0;
    while r < |RegionMapping|
      invariant 0 <= r <= |RegionMapping|
      invariant regional.Keys == set j | 0 <= j < r :: RegionMapping[j].name
      invariant forall j | 0 <= j < r :: regional[RegionMapping[j].name] == RegionEntry(RegionMapping[j], dbdtValues)
    {
      var config := RegionMapping[r];
      var entry := ClassifyRegion(config, dbdtValues);
      regional := regional[config.name := entry];
      r := r + 1;
    }
    forall k | k in regional
      ensures exists c | c in RegionMapping :: c.multiplier > 0.0 && regional[k] == RegionEntry(c, dbdtValues)
    {
      var j :| 0 <= j < |RegionMapping| && RegionMapping[j].name == k;
      assert RegionMapping[j] in RegionMapping;
    }
    EntriesFacts(regional, RegionMapping, dbdtValues);
  }

  /** The level never decreases as the peak grows. */
  lemma LevelMonotone(p1: real, p2: real, t: Thresholds)
    requires p1 <= p2
    ensures ClassifyLevel(p1, t) <= ClassifyLevel(p2, t)
  {
  }

  /** Appending one input extends the station list by its code when it is registered. */
  lemma KnownStationsSnoc(v: seq<(string, real)>, x: (string, real), registry: set<string>)
    ensures KnownStations(v + [x], registry) == KnownStations(v, registry) + (if x.0 in registry then [x.0] else [])
  {
    var w := v + [x];
    assert w[..|w| - 1] == v && w[|w| - 1] == x;
  }

  /** The station list of concatenated inputs is the concatenation of their lists. */
  lemma {:induction false} KnownStationsAppend(a: seq<(string, real)>, b: seq<(string, real)>, registry: set<string>)
    ensures KnownStations(a + b, registry) == KnownStations(a, registry) + KnownStations(b, registry)
    decreases |b|
  {
    if |b| == 0 {
      assert a + b == a;
    } else {
      var b' := b[..|b| - 1];
      var x := b[|b| - 1];
      assert b == b' + [x];
      assert a + b == (a + b') + [x];
      KnownStationsAppend(a, b', registry);
      KnownStationsSnoc(a + b', x, registry);
      KnownStationsSnoc(b', x, registry);
      var t := if x.0 in registry then [x.0] else [];
      assert KnownStations(a, registry) + KnownStations(b', registry) + t
          == KnownStations(a, registry) + (KnownStations(b', registry) + t);
    }
  }

  /** Appending one input raises the peak to its value when it is registered and larger. */
  lemma PeakSnoc(v: seq<(string, real)>, x: (string, real), registry: set<string>)
    ensures Peak(v + [x], registry) == if x.0 in registry && x.1 > Peak(v, registry) then x.1 else Peak(v, registry)
  {
    var w := v + [x];
    assert w[..|w| - 1] == v && w[|w| - 1] == x;
  }

  /** The peak of concatenated inputs is the larger of their peaks. */
  lemma {:induction false} PeakAppend(a: seq<(string, real)>, b: seq<(string, real)>, registry: set<string>)
    ensures Peak(a + b, registry) == if Peak(a, registry) < Peak(b, registry) then Peak(b, registry) else Peak(a, registry)
    decreases |b|
  {
    if |b| == 0 {
      assert a + b == a;
    } else {
      var b' := b[..|b| - 1];
      var x := b[|b| - 1];
      assert b == b' + [x];
      assert a + b == (a + b') + [x];
      PeakAppend(a, b', registry);
      PeakSnoc(a + b', x, registry);
      PeakSnoc(b', x, registry);
    }
  }

  /** An input anywhere whose code is not registered changes neither the peak nor the station list. */
  lemma UnknownStationIgnored(a: seq<(string, real)>, code: string, x: real, b: seq<(string, real)>, registry: set<string>)
    requires code !in registry
    ensures Peak(a + [(code, x)] + b, registry) == Peak(a + b, registry)
    ensures KnownStations(a + [(code, x)] + b, registry) == KnownStations(a + b, registry)
  {
    var u := [(code, x)];
    assert Peak(u, registry) == 0.0 && KnownStations(u, registry) == [] by {
      assert u[..0] == [];
    }
    assert Peak(a + u + b, registry) == Peak(a + b, registry) by {
      PeakAppend(a, u, registry);
      PeakAppend(a + u, b, registry);
      PeakAppend(a, b, registry);
    }
    assert KnownStations(a + u + b, registry) == KnownStations(a + b, registry) by {
      KnownStationsAppend(a, u, registry);
      KnownStationsAppend(a + u, b, registry);
      KnownStationsAppend(a, b, registry);
    }
  }

  /** A code is listed exactly when it is registered and some input carries it. */
  lemma {:induction false} KnownStationsMembership(values: seq<(string, real)>, c: string, registry: set<string>)
    ensures c in KnownStations(values, registry) <==> c in registry && exists i | 0 <= i < |values| :: values[i].0 == c
    decreases |values|
  {
    if |values| > 0 {
      var prefix := values[..|values| - 1];
      KnownStationsMembership(prefix, c, registry);
      assert forall i | 0 <= i < |prefix| :: prefix[i] == values[i];
      if c in registry && values[|values| - 1].0 == c {
        assert c in KnownStations(values, registry);
      }
    }
  }

  /** Canterbury (multiplier 1.5, thresholds 30 and 75) with peak 40 shows Possible Aurora. */
  lemma CanterburyAtForty()
    ensures var s := RegionEntry(RegionMapping[1], [("AHAM", 40.0)]);
      s.level == 1 && s.status == "Possible Aurora" && s.contributingStations == ["AHAM"]
  {
    var v := [("AHAM", 40.0)];
    assert v[..0] == [];
    assert "AHAM" in MagnetometerStations;
    assert Peak(v, MagnetometerStations.Keys) == 40.0;
  }

  /** With no values at all every region reports level 0: the source has no separate no-data state. */
  lemma NoValuesGivesNoActivity(config: Region)
    requires config in RegionMapping
    ensures RegionEntry(config, []).level == 0
    ensures RegionEntry(config, []).contributingStations == []
  {
    ConfiguredThresholdsOrdered();
  }
}
