/**
  The static configuration of the nowcaster: the magnetometer stations,
  the two base dB/dt thresholds (nT/min) and the regions with their
  threshold multipliers.  Python's float literals of the tables are
  exact decimals, so they are written here as exact reals.
*/
module Config {

  /** One known magnetometer station; its region is informational only. */
  datatype Station = Station(name: string, latitude: real, longitude: real, region: string)

  /** The station registry, keyed by station code. */
  const MagnetometerStations: map<string, Station> := map[
    "AHAM" := Station("Ahaura Magnetic Observatory", -42.75, 171.50, "Canterbury"),
    "APIM" := Station("API Magnetic Observatory", -36.88, 174.75, "Auckland"),
    "EY2M" := Station("Eyrewell Magnetic Observatory", -43.42, 172.35, "Canterbury"),
    "EYWM" := Station("Eyrewell West Magnetic Observatory", -43.42, 172.25, "Canterbury"),
    "SMHS" := Station("Scott Base Magnetic Observatory", -77.85, 166.76, "Antarctica")
  ]

  /** Base thresholds in nT/min. */
  const NoActivityBase: real := 20.0
  const PossibleBase: real := 50.0

  /** A region of the mapping, in the mapping's order. */
  datatype Region = Region(name: string, multiplier: real, displayName: string)

  const RegionMapping: seq<Region> := [
    Region("Auckland", 2.0, "Auckland"),
    Region("Canterbury", 1.5, "Canterbury"),
    Region("Otago", 1.2, "Otago"),
    Region("Southland", 1.0, "Southland"),
    Region("Stewart Island", 0.8, "Stewart Island")
  ]

  /** The registry holds exactly five station codes, all south of the equator. */
  lemma StationRegistry()
    ensures MagnetometerStations.Keys == {"AHAM", "APIM", "EY2M", "EYWM", "SMHS"}
    ensures forall c | c in MagnetometerStations :: MagnetometerStations[c].latitude < 0.0
  {
  }

  /**
    The mapping lists five regions from north to south: each region's
    display name is its name, and the multiplier falls from one region
    to the next.
  */
  lemma RegionTable()
    ensures |RegionMapping| == 5
    ensures forall i | 0 <= i < |RegionMapping| :: RegionMapping[i].displayName == RegionMapping[i].name
    ensures forall i | 0 < i < |RegionMapping| :: RegionMapping[i].multiplier < RegionMapping[i - 1].multiplier
    ensures RegionNames() == {"Auckland", "Canterbury", "Otago", "Southland", "Stewart Island"}
  {
    var names := RegionNames();
    forall n | n in names ensures n in {"Auckland", "Canterbury", "Otago", "Southland", "Stewart Island"} {
      var i :| 0 <= i < |RegionMapping| && RegionMapping[i].name == n;
    }
    assert RegionMapping[0].name in names && RegionMapping[1].name in names && RegionMapping[2].name in names;
    assert RegionMapping[3].name in names && RegionMapping[4].name in names;
  }

  /** The set of region names, the keys of the mapping. */
  function RegionNames(): (names: set<string>)
    ensures forall i | 0 <= i < |RegionMapping| :: RegionMapping[i].name in names
    ensures forall n | n in names :: exists i | 0 <= i < |RegionMapping| :: RegionMapping[i].name == n
  {
    set i | 0 <= i < |RegionMapping| :: RegionMapping[i].name
  }

  /** The keys of a Python dict are distinct: so are the region names. */
  lemma RegionNamesDistinct()
    ensures forall i, j | 0 <= i < j < |RegionMapping| :: RegionMapping[i].name != RegionMapping[j].name
  {
    assert RegionMapping[0].name[0] == 'A';
    assert RegionMapping[1].name[0] == 'C';
    assert RegionMapping[2].name[0] == 'O';
    assert RegionMapping[3].name[1] == 'o';
    assert RegionMapping[4].name[1] == 't';
  }

  /** The pair of effective thresholds of a region. */
  datatype Thresholds = Thresholds(noActivity: real, possible: real)

  /**
    Effective thresholds are base times multiplier; they are correctly
    ordered exactly when the multiplier is positive, and they scale
    linearly with it.
  */
  function EffectiveThresholds(multiplier: real): (t: Thresholds)
    ensures t.noActivity < t.possible <==> multiplier > 0.0
    ensures t.noActivity * PossibleBase == t.possible * NoActivityBase
    ensures multiplier == 1.0 ==> t == Thresholds(NoActivityBase, PossibleBase)
  {
    Thresholds(NoActivityBase * multiplier, PossibleBase * multiplier)
  }

  /** Every configured multiplier is positive, so every region's thresholds are ordered. */
  lemma ConfiguredThresholdsOrdered()
    ensures forall i | 0 <= i < |RegionMapping| ::
      RegionMapping[i].multiplier > 0.0 &&
      EffectiveThresholds(RegionMapping[i].multiplier).noActivity
        < EffectiveThresholds(RegionMapping[i].multiplier).possible
  {
  }

  /** The effective thresholds of the five configured regions. */
  lemma ConfiguredThresholdValues()
    ensures EffectiveThresholds(RegionMapping[0].multiplier) == Thresholds(40.0, 100.0)
    ensures EffectiveThresholds(RegionMapping[1].multiplier) == Thresholds(30.0, 75.0)
    ensures EffectiveThresholds(RegionMapping[2].multiplier) == Thresholds(24.0, 60.0)
    ensures EffectiveThresholds(RegionMapping[3].multiplier) == Thresholds(20.0, 50.0)
    ensures EffectiveThresholds(RegionMapping[4].multiplier) == Thresholds(16.0, 40.0)
  {
  }
}
