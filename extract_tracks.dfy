/**
 * One step of the track extraction: a data row's detections are renamed by
 * port, cut to the default bounds, given global coordinates, and handed to
 * the track manager with the row's timestamp.
 */
module ExtractTracks {
  import opened Wrappers
  import opened Sequences
  import opened Geometry
  import opened Detections
  import opened RadarDataFilter
  import opened TrackManager

  /** `map_ports_to_radar_names` on a whole list, as a value. */
  function Renamed(radars: seq<RadarConfig>, ds: seq<Detection>): (r: seq<Detection>)
    ensures |r| == |ds|
    ensures forall i | 0 <= i < |ds| :: r[i] == RenamedByPort(radars, ds[i])
  {
    seq(|ds|, i requires 0 <= i < |ds| => RenamedByPort(radars, ds[i]))
  }

  /** The list after `add_utm` has written the UTM keys into it, as a value. */
  function Located(radars: seq<RadarConfig>, trig: Trig, ds: seq<Detection>): (r: seq<Detection>)
    ensures |r| == |ds|
    ensures forall i | 0 <= i < |ds| :: r[i] == WithUtm(radars, trig, ds[i])
  {
    seq(|ds|, i requires 0 <= i < |ds| => WithUtm(radars, trig, ds[i]))
  }

  /**
   * The detections of a row as the track manager receives them: at most
   * one per raw detection; `CleanRowSound` says which.
   */
  function CleanRow(radars: seq<RadarConfig>, trig: Trig, raw: seq<Detection>): (clean: seq<Detection>)
    ensures |clean| <= |raw|
  {
    Filter(d => HasOneRadar(radars, d),
      Located(radars, trig, Filter(d => !OutOfBounds(DefaultBounds, d), Renamed(radars, raw))))
  }

  /**
   * Every detection the manager receives is within the default bounds,
   * names exactly one configured radar and carries UTM keys; and every
   * renamed in-bounds detection of a configured radar reaches it.
   */
  lemma CleanRowSound(radars: seq<RadarConfig>, trig: Trig, raw: seq<Detection>)
    ensures forall d | d in CleanRow(radars, trig, raw) ::
      d.utm.Some? && HasOneRadar(radars, d) && !OutOfBounds(DefaultBounds, d)
    ensures forall e | e in Renamed(radars, raw) && !OutOfBounds(DefaultBounds, e) && HasOneRadar(radars, e) ::
      WithUtm(radars, trig, e) in CleanRow(radars, trig, raw)
  {
    var kept := Filter(d => !OutOfBounds(DefaultBounds, d), Renamed(radars, raw));
    LocatedSound(radars, trig, kept);
    LocatedComplete(radars, trig, kept);
  }

  /** Filtering the located list keeps detections with UTM keys, from the list before `add_utm`. */
  lemma LocatedSound(radars: seq<RadarConfig>, trig: Trig, kept: seq<Detection>)
    requires forall e | e in kept :: !OutOfBounds(DefaultBounds, e)
    ensures forall d | d in Filter(d => HasOneRadar(radars, d), Located(radars, trig, kept)) ::
      d.utm.Some? && HasOneRadar(radars, d) && !OutOfBounds(DefaultBounds, d)
  {
    var located := Located(radars, trig, kept);
    forall d | d in Filter(d => HasOneRadar(radars, d), located)
      ensures d.utm.Some? && HasOneRadar(radars, d) && !OutOfBounds(DefaultBounds, d)
    {
      var i :| 0 <= i < |located| && located[i] == d;
      assert kept[i] in kept;
      assert d == kept[i].(utm := d.utm);
    }
  }

  /** Every kept detection of a configured radar reaches the filtered, located list. */
  lemma LocatedComplete(radars: seq<RadarConfig>, trig: Trig, kept: seq<Detection>)
    ensures forall e | e in kept && HasOneRadar(radars, e) ::
      WithUtm(radars, trig, e) in Filter(d => HasOneRadar(radars, d), Located(radars, trig, kept))
  {
    var located := Located(radars, trig, kept);
    forall e | e in kept && HasOneRadar(radars, e)
      ensures WithUtm(radars, trig, e) in Filter(d => HasOneRadar(radars, d), located)
    {
      var i :| 0 <= i < |kept| && kept[i] == e;
      assert located[i] == WithUtm(radars, trig, e);
    }
  }

  /** A list whose detections all carry UTM keys never makes `update` fail for want of them. */
  lemma UtmFrameNeverMissing(data: seq<Detection>, tracked: set<string>)
    requires forall d | d in data :: d.utm.Some?
    ensures CheckFrame(data, tracked) != Fail(MissingUtm)
  {
    if Keyed(data) {
      var frame := FrameMap(data);
      forall k | k in frame
        ensures frame[k].utm.Some?
      {
        assert frame[k] in data;
      }
    }
  }

  /** A list whose detections all carry UTM keys and a labelled radar name is accepted by `update`. */
  lemma LabelledFramePasses(data: seq<Detection>, tracked: set<string>)
    requires forall d | d in data :: d.utm.Some? && RoadLabel(d.radar).Some?
    ensures CheckFrame(data, tracked) == Pass
  {
    assert Keyed(data);
    var frame := FrameMap(data);
    forall k | k in frame
      ensures frame[k].utm.Some? && RoadLabel(frame[k].radar).Some?
    {
      assert frame[k] in data;
    }
  }

  /** A cleaned row never makes `update` fail for want of UTM keys. */
  lemma CleanRowHasUtm(radars: seq<RadarConfig>, trig: Trig, raw: seq<Detection>, tracked: set<string>)
    ensures CheckFrame(CleanRow(radars, trig, raw), tracked) != Fail(MissingUtm)
  {
    CleanRowSound(radars, trig, raw);
    UtmFrameNeverMissing(CleanRow(radars, trig, raw), tracked);
  }

  /**
   * When every configured radar name begins with a road letter A to Q,
   * `update` accepts every cleaned row: the detections all name a
   * configured radar.
   */
  lemma LabelledRadarsNeverFail(radars: seq<RadarConfig>, trig: Trig, raw: seq<Detection>, tracked: set<string>)
    requires forall c | c in radars :: RoadLabel(c.name).Some?
    ensures CheckFrame(CleanRow(radars, trig, raw), tracked) == Pass
  {
    var clean := CleanRow(radars, trig, raw);
    CleanRowSound(radars, trig, raw);
    forall d | d in clean
      ensures d.utm.Some? && RoadLabel(d.radar).Some?
    {
      var matching := MatchingRadars(radars, d.radar);
      assert matching[0] in matching;
    }
    LabelledFramePasses(clean, tracked);
  }

  /**
   * The cleaning half of the extraction loop's body: rename ports and
   * filter the row's list in place (`add_utm` then writes the UTM keys
   * into the same detections), and collect the detections of a configured
   * radar into a new list.
   */
  method CleanDetections(radars: seq<RadarConfig>, trig: Trig, row: DataPoint) returns (clean: DetectionList)
    modifies row.raw
    ensures fresh(clean)
    ensures row.raw.items == Located(radars, trig, Filter(d => !OutOfBounds(DefaultBounds, d), Renamed(radars, old(row.raw.items))))
    ensures clean.items == CleanRow(radars, trig, old(row.raw.items))
  {
    ghost var raw0 := row.raw.items;
    var datapoint := MapPortsToRadarNames(radars, row);
    assert row.raw.items == Renamed(radars, raw0);
    var rawDetections := FilterDetections(datapoint.raw, DefaultBounds);
    ghost var kept := rawDetections.items;
    ghost var filtered := rawDetections;
    rawDetections := AddUtm(radars, trig, rawDetections);
    assert filtered.items == Located(radars, trig, kept);
    clean := rawDetections;
  }

  /**
   * The body of the extraction loop for one row: rename ports, filter the
   * row's list in place, add UTM coordinates into a new list, and update
   * the manager with it.
   */
  method ProcessRow(radars: seq<RadarConfig>, trig: Trig, manager: RadarTrackManager, row: DataPoint)
    returns (outcome: Outcome<UpdateError>, ghost order: seq<string>)
    requires manager.Valid()
    modifies row.raw, manager, manager.Repr
    ensures manager.Valid()
    ensures outcome == CheckFrame(CleanRow(radars, trig, old(row.raw.items)), old(manager.Active).Keys)
    ensures outcome.Pass? ==>
      manager.Active == NextActive(old(manager.Active), FrameMap(CleanRow(radars, trig, old(row.raw.items))),
                                   row.timestamp, manager.maxMissing)
    ensures outcome.Pass? ==>
      manager.trackCount == old(manager.trackCount)
        + |FrameMap(CleanRow(radars, trig, old(row.raw.items))).Keys - old(manager.Active).Keys|
    ensures outcome.Pass? ==>
      IsEnumeration(order, FinalizedKeys(old(manager.Active), FrameMap(CleanRow(radars, trig, old(row.raw.items))),
                                         manager.maxMissing))
    ensures outcome.Pass? ==> forall k | k in order :: k in old(manager.Active)
    ensures outcome.Pass? ==>
      manager.totalLength == old(manager.totalLength) + TotalLength(FinalizedStates(old(manager.Active), order), manager.dist)
    ensures outcome.Pass? ==>
      manager.completeTracks == old(manager.completeTracks)
        + ValidRecords(FinalizedStates(old(manager.Active), order), manager.dist, manager.inRoi)
    ensures outcome.Pass? ==> manager.finalized == old(manager.finalized) + |order|
    ensures outcome.Fail? ==> unchanged(manager) && order == []
  {
    var rawDetections := CleanDetections(radars, trig, row);
    outcome, order := manager.Update(rawDetections.items, row.timestamp);
  }
}
