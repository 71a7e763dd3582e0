/**
 * `Track` and `RadarTrackManager`: per-frame association of detections to
 * vehicle tracks by an identity key, the grace window for tracks that go
 * missing, finalisation and validation of tracks, and the run statistics.
 *
 * The Euclidean distance (`scipy.spatial.distance.euclidean`) and the
 * region-of-interest test (`shapely` `Polygon.contains`) are foreign calls;
 * the manager receives them as the parameters `dist` and `inRoi`.
 */
module TrackManager {
  import opened Wrappers
  import opened Sequences
  import opened Geometry
  import opened Detections

  /** `_is_valid_track`'s default `min_length`. */
  const MinLength: real := 100.0

  function Last<T>(s: seq<T>): T
    requires s != []
  {
    s[|s| - 1]
  }

  function Max0(n: int): nat
  {
    if n < 0 then 0 else n
  }

  // ---------------------------------------------------------------------
  // Track contents and their derived metrics

  /** The contents of a live `Track`. */
  datatype TrackState = TrackState(
    id: string,
    missing: nat,
    time: seq<int>,
    phistory: seq<Vec>,
    vhistory: seq<Vec>,
    vehicleType: string,
    road: string,
    radar: string)

  /** The three histories run in parallel and are never empty. */
  ghost predicate WellFormed(s: TrackState)
  {
    |s.time| == |s.phistory| == |s.vhistory| && |s.phistory| >= 1
  }

  /** `Track.length()`: the summed distance between consecutive positions. */
  function PathLength(ps: seq<Vec>, dist: (Vec, Vec) -> real): (l: real)
    ensures IsDistance(dist) ==> l >= 0.0
    ensures |ps| <= 1 ==> l == 0.0
  {
    if |ps| <= 1 then 0.0 else PathLength(ps[..|ps| - 1], dist) + dist(ps[|ps| - 2], ps[|ps| - 1])
  }

  /** `Track.idleTime()`: how many velocity samples are exactly zero in both components. */
  function IdleCount(vs: seq<Vec>): (n: nat)
    ensures n <= |vs|
  {
    if vs == [] then 0 else IdleCount(vs[..|vs| - 1]) + (if vs[|vs| - 1] == Vec(0.0, 0.0) then 1 else 0)
  }

  /** The positions of the zero samples. */
  ghost function IdleSamples(vs: seq<Vec>): set<nat>
  {
    set k: nat | k < |vs| && vs[k] == Vec(0.0, 0.0)
  }

  /** The idle count is the number of sample positions holding the zero vector. */
  lemma {:induction false} IdleCountIsIdleSamples(vs: seq<Vec>)
    ensures IdleCount(vs) == |IdleSamples(vs)|
  {
    if vs != [] {
      var n := |vs| - 1;
      IdleCountIsIdleSamples(vs[..n]);
      var before := IdleSamples(vs[..n]);
      if vs[n] == Vec(0.0, 0.0) {
        assert IdleSamples(vs) == before + {n};
        assert n !in before;
      } else {
        assert IdleSamples(vs) == before;
      }
    } else {
      assert IdleSamples(vs) == {};
    }
  }

  /** A track is idle throughout exactly when every sample is the zero vector. */
  lemma {:induction false} AllIdleIffStationary(vs: seq<Vec>)
    ensures IdleCount(vs) == |vs| <==> forall k | 0 <= k < |vs| :: vs[k] == Vec(0.0, 0.0)
  {
    if vs != [] {
      var n := |vs| - 1;
      AllIdleIffStationary(vs[..n]);
      assert forall k | 0 <= k < n :: vs[..n][k] == vs[k];
    }
  }

  /** `Track.get_dict()`: the exported, immutable form of a finalised track. */
  datatype TrackRecord = TrackRecord(
    id: string,
    missing: nat,
    vehicleType: string,
    road: string,
    radar: string,
    length: real,
    idleCount: nat,
    timestamps: seq<int>,
    phistory: seq<Vec>,
    vhistory: seq<Vec>)

  function Snapshot(s: TrackState, dist: (Vec, Vec) -> real): TrackRecord
  {
    TrackRecord(s.id, s.missing, s.vehicleType, s.road, s.radar,
                PathLength(s.phistory, dist), IdleCount(s.vhistory), s.time, s.phistory, s.vhistory)
  }

  /** `_is_valid_track`: long enough, and the last position lies inside the region of interest. */
  ghost predicate ValidTrack(s: TrackState, dist: (Vec, Vec) -> real, inRoi: Vec -> bool, minLength: real)
  {
    PathLength(s.phistory, dist) >= minLength && s.phistory != [] && inRoi(Last(s.phistory))
  }

  // ---------------------------------------------------------------------
  // The `Track` class

  /** One vehicle followed across frames. */
  class Track {
    var id: string
    var missing: nat
    var time: seq<int>
    var phistory: seq<Vec>
    var vhistory: seq<Vec>
    var vehicleType: string
    var road: string
    var radar: string

    ghost function State(): TrackState
      reads this
    {
      TrackState(id, missing, time, phistory, vhistory, vehicleType, road, radar)
    }

    /** The track's state is well formed. */
    ghost predicate Valid()
      reads this
    {
      WellFormed(State())
    }

    /** A track seeded with one measurement; its id is a placeholder the manager overwrites. */
    constructor (timestamp: int, position: Vec, velocity: Vec, vehicleType: string, road: string, radar: string)
      ensures Valid()
      ensures State() == TrackState("-1", 0, [timestamp], [position], [velocity], vehicleType, road, radar)
    {
      id := "-1";
      missing := 0;
      time := [timestamp];
      phistory := [position];
      vhistory := [velocity];
      this.vehicleType := vehicleType;
      this.road := road;
      this.radar := radar;
    }

    /** `addMeasurement`: one more sample in each history, and the missing counter back to 0. */
    method AddMeasurement(timestamp: int, position: Vec, velocity: Vec)
      requires Valid()
      modifies this
      ensures Valid()
      ensures State() == Measured(old(State()), timestamp, position, velocity)
      ensures |phistory| == |old(phistory)| + 1
    {
      missing := 0;
      time := time + [timestamp];
      phistory := phistory + [position];
      vhistory := vhistory + [velocity];
    }

    /** `length()`: the accumulated distance between consecutive positions. */
    method Length(dist: (Vec, Vec) -> real) returns (length: real)
      ensures length == PathLength(phistory, dist)
    {
      length := 0.0;
      var i := 1;
      while i < |phistory|
        invariant 1 <= i
        invariant |phistory| >= 1 ==> i <= |phistory|
        invariant length == PathLength(if i <= |phistory| then phistory[..i] else phistory, dist)
      {
        var p0 := phistory[i - 1];
        var p1 := phistory[i];
        assert phistory[..i + 1][..i] == phistory[..i];
        length := length + dist(p0, p1);
        i := i + 1;
      }
      if |phistory| >= 1 {
        assert phistory[..i] == phistory;
      }
    }

    /** `idleTime()`: the number of velocity samples equal to `(0, 0)`. */
    method IdleTime() returns (idleCount: nat)
      ensures idleCount == IdleCount(vhistory)
    {
      idleCount := 0;
      for i := 0 to |vhistory|
        invariant idleCount == IdleCount(vhistory[..i])
      {
        assert vhistory[..i + 1][..i] == vhistory[..i];
        if vhistory[i] == Vec(0.0, 0.0) {
          idleCount := idleCount + 1;
        }
      }
      assert vhistory[..|vhistory|] == vhistory;
    }

    /** `get_dict()`. */
    method GetDict(dist: (Vec, Vec) -> real) returns (out: TrackRecord)
      ensures out == Snapshot(State(), dist)
    {
      var length := Length(dist);
      var idleCount := IdleTime();
      out := TrackRecord(id, missing, vehicleType, road, radar, length, idleCount, time, phistory, vhistory);
    }
  }

  /**
   * The state after `addMeasurement`: the counter is reset, each history
   * keeps its samples and ends with the new one, and nothing else changes.
   */
  function Measured(s: TrackState, timestamp: int, position: Vec, velocity: Vec): (r: TrackState)
    ensures WellFormed(s) ==> WellFormed(r)
    ensures r.missing == 0
    ensures |r.time| == |s.time| + 1 && r.time[..|s.time|] == s.time && Last(r.time) == timestamp
    ensures |r.phistory| == |s.phistory| + 1 && r.phistory[..|s.phistory|] == s.phistory && Last(r.phistory) == position
    ensures |r.vhistory| == |s.vhistory| + 1 && r.vhistory[..|s.vhistory|] == s.vhistory && Last(r.vhistory) == velocity
    ensures r == s.(missing := 0, time := r.time, phistory := r.phistory, vhistory := r.vhistory)
  {
    s.(missing := 0, time := s.time + [timestamp], phistory := s.phistory + [position],
       vhistory := s.vhistory + [velocity])
  }

  // ---------------------------------------------------------------------
  // Frames

  /** Why `update` raises. */
  datatype UpdateError =
    | EmptyRadarName  // `d["radar"][-1]` on an empty name: IndexError
    | MissingUtm      // a detection used for a track has no UTM keys: KeyError
    | NoRoadLabel     // a new track's radar name does not start with A-Q: IndexError

  /** The identity key `f'{d["id"]}_{d["radar"][-1]}'`. */
  function Key(d: Detection): (k: string)
    requires d.radar != []
    ensures k != [] && Last(k) == Last(d.radar)
  {
    d.id + "_" + [Last(d.radar)]
  }

  /**
   * The key identifies a track: two detections share a key exactly when
   * they carry the same id and their radar names end in the same
   * character, so radars such as `A1` and `B1` report into the same track.
   */
  lemma KeyIdentity(d1: Detection, d2: Detection)
    requires d1.radar != [] && d2.radar != []
    ensures Key(d1) == Key(d2) <==> d1.id == d2.id && Last(d1.radar) == Last(d2.radar)
  {
    if Key(d1) == Key(d2) {
      assert |d1.id| == |Key(d1)| - 2 == |Key(d2)| - 2 == |d2.id|;
      assert d1.id == Key(d1)[..|d1.id|] == Key(d2)[..|d2.id|] == d2.id;
      assert Last(Key(d1)) == Last(Key(d2));
    }
  }

  /** `re.findall("^[A-Q][\d]{0,1}", radar)[0]`, `None` where Python raises. */
  function RoadLabel(radar: string): (r: Option<string>)
    ensures r.Some? <==> radar != [] && 'A' <= radar[0] <= 'Q'
    ensures r.Some? ==> 1 <= |r.value| <= 2 && r.value <= radar
    ensures r.Some? ==> (|r.value| == 2 <==> |radar| >= 2 && '0' <= radar[1] <= '9')
  {
    if radar == [] || !('A' <= radar[0] <= 'Q') then None
    else if |radar| >= 2 && '0' <= radar[1] <= '9' then Some(radar[..2])
    else Some(radar[..1])
  }

  /** Every detection has a non-empty radar name, so its key exists. */
  ghost predicate Keyed(data: seq<Detection>)
  {
    forall d | d in data :: d.radar != []
  }

  /** `{key(d): d for d in data}`: one entry per key, the last detection with that key winning. */
  function FrameMap(data: seq<Detection>): (m: map<string, Detection>)
    requires Keyed(data)
    ensures forall k | k in m :: m[k] in data && Key(m[k]) == k
    ensures forall d | d in data :: Key(d) in m
  {
    if data == [] then map[]
    else
      var d := Last(data);
      assert forall e | e in data[..|data| - 1] :: e in data;
      assert forall e | e in data :: e in data[..|data| - 1] || e == d;
      FrameMap(data[..|data| - 1])[Key(d) := d]
  }

  /** The frame map of a non-empty list is that of its prefix with the last detection stored. */
  lemma FrameMapSnoc(data: seq<Detection>)
    requires Keyed(data) && data != []
    ensures Keyed(data[..|data| - 1])
    ensures FrameMap(data) == FrameMap(data[..|data| - 1])[Key(Last(data)) := Last(data)]
  {
    var prefix := data[..|data| - 1];
    forall e | e in prefix
      ensures e.radar != []
    {
      assert e in data;
    }
  }

  /** Among detections sharing a key, the frame map keeps the last one. */
  lemma {:induction false} FrameMapLastWins(data: seq<Detection>, i: nat)
    requires Keyed(data) && i < |data|
    requires forall j | i < j < |data| :: Key(data[j]) != Key(data[i])
    ensures FrameMap(data)[Key(data[i])] == data[i]
  {
    var n := |data| - 1;
    FrameMapSnoc(data);
    var prefix := data[..n];
    if i < n {
      var k := Key(data[i]);
      assert Key(data[n]) != k;
      assert prefix[i] == data[i];
      assert forall j | i < j < |prefix| :: prefix[j] == data[j];
      FrameMapLastWins(prefix, i);
      assert Last(data) == data[n];
    } else {
      assert data[i] == Last(data);
    }
  }

  /** A measurement's UTM position and speed. */
  function UtmPosition(u: Utm): Vec
  {
    Vec(u.xPos, u.yPos)
  }

  function UtmVelocity(u: Utm): Vec
  {
    Vec(u.xSpeed, u.ySpeed)
  }

  /** Every frame entry carries UTM keys, and the radar of every key not yet tracked yields a road label. */
  ghost predicate FrameReady(frame: map<string, Detection>, tracked: set<string>)
  {
    (forall k | k in frame :: frame[k].utm.Some?)
    && (forall k | k in frame && k !in tracked :: RoadLabel(frame[k].radar).Some?)
  }

  /** Which error, if any, `update` raises on `data` with the keys `tracked` active. */
  function CheckFrame(data: seq<Detection>, tracked: set<string>): (r: Outcome<UpdateError>)
    ensures r == Fail(EmptyRadarName) <==> !Keyed(data)
    ensures r.Pass? <==> Keyed(data) && FrameReady(FrameMap(data), tracked)
  {
    if exists d :: d in data && d.radar == [] then Fail(EmptyRadarName)
    else
      var frame := FrameMap(data);
      if exists k :: k in frame && frame[k].utm.None? then Fail(MissingUtm)
      else if exists k :: k in frame && k !in tracked && RoadLabel(frame[k].radar).None? then Fail(NoRoadLabel)
      else Pass
  }

  /** An updated track: the frame's measurement appended. */
  function Measure(s: TrackState, timestamp: int, d: Detection): TrackState
    requires d.utm.Some?
  {
    Measured(s, timestamp, UtmPosition(d.utm.value), UtmVelocity(d.utm.value))
  }

  /** A new track for key `k`. */
  function Start(k: string, timestamp: int, d: Detection): TrackState
    requires d.utm.Some? && RoadLabel(d.radar).Some?
  {
    TrackState(k, 0, [timestamp], [UtmPosition(d.utm.value)], [UtmVelocity(d.utm.value)],
               d.vehicleClass, RoadLabel(d.radar).value, d.radar)
  }

  /** A track absent from the frame. */
  function Missed(s: TrackState): TrackState
  {
    s.(missing := s.missing + 1)
  }

  /**
   * The active tracks after one frame: keys in both are measured, keys only
   * in the frame start new tracks, and keys only active miss a frame and
   * are dropped once their counter exceeds `maxMissing`.
   */
  ghost function NextActive(active: map<string, TrackState>, frame: map<string, Detection>, timestamp: int,
                            maxMissing: int): (next: map<string, TrackState>)
    requires FrameReady(frame, active.Keys)
    ensures next.Keys == frame.Keys + (active.Keys - FinalizedKeys(active, frame, maxMissing))
    ensures next.Keys !! FinalizedKeys(active, frame, maxMissing)
  {
    map k | k in active.Keys + frame.Keys && (k in frame || active[k].missing + 1 <= maxMissing) ::
      if k in frame && k in active then Measure(active[k], timestamp, frame[k])
      else if k in frame then Start(k, timestamp, frame[k])
      else Missed(active[k])
  }

  /** The keys finalised by a frame: active, absent, and now past the grace window. */
  ghost function FinalizedKeys(active: map<string, TrackState>, frame: map<string, Detection>, maxMissing: int)
    : set<string>
  {
    set k | k in active && k !in frame && active[k].missing + 1 > maxMissing
  }

  /** The keys of `keys` that one more missed frame takes past the grace window. */
  ghost function ExpiredKeys(active: map<string, TrackState>, keys: set<string>, maxMissing: int): set<string>
  {
    set k | k in keys && k in active && active[k].missing + 1 > maxMissing
  }

  /** Processing one more key `k` of the third loop extends the enumeration of the expired keys. */
  lemma ExpiredStep(active: map<string, TrackState>, done: set<string>, maxMissing: int, order: seq<string>,
                    k: string)
    requires IsEnumeration(order, ExpiredKeys(active, done, maxMissing))
    requires k in active && k !in done
    ensures var gone := active[k].missing + 1 > maxMissing;
            IsEnumeration(if gone then order + [k] else order, ExpiredKeys(active, done + {k}, maxMissing))
  {
    var next := if active[k].missing + 1 > maxMissing then order + [k] else order;
    assert k !in order;
    forall x ensures x in next <==> x in ExpiredKeys(active, done + {k}, maxMissing) {
      assert x in next <==> x in order || (x == k && active[k].missing + 1 > maxMissing);
    }
  }

  /**
   * After the first two loops, the third one sees the absent tracks unchanged, so the keys it expires are
   * the keys `update` finalises, and it finalises the states they had before the frame.
   */
  lemma ExpiredAreFinalized(active: map<string, TrackState>, frame: map<string, Detection>, timestamp: int,
                            maxMissing: int, order: seq<string>)
    requires FrameReady(frame, active.Keys)
    requires var updated := active.Keys * frame.Keys;
             var started := MeasuredKeys(active, updated, frame, timestamp)
                            + StartedKeys(frame.Keys - updated, frame, timestamp);
             IsEnumeration(order, ExpiredKeys(started, active.Keys - updated, maxMissing))
    ensures IsEnumeration(order, FinalizedKeys(active, frame, maxMissing))
    ensures forall k | k in order :: k in active
    ensures var updated := active.Keys * frame.Keys;
            var started := MeasuredKeys(active, updated, frame, timestamp)
                           + StartedKeys(frame.Keys - updated, frame, timestamp);
            (forall k | k in order :: k in started)
            && FinalizedStates(started, order) == FinalizedStates(active, order)
  {
    var updated := active.Keys * frame.Keys;
    var started := MeasuredKeys(active, updated, frame, timestamp)
                   + StartedKeys(frame.Keys - updated, frame, timestamp);
    assert forall k | k in active.Keys - updated :: k in started && started[k] == active[k];
    assert ExpiredKeys(started, active.Keys - updated, maxMissing) == FinalizedKeys(active, frame, maxMissing);
    FinalizedStatesAgree(started, active, order);
  }

  /** The finalised tracks, in the order `order` of their keys. */
  ghost function FinalizedStates(active: map<string, TrackState>, order: seq<string>): (r: seq<TrackState>)
    requires forall k | k in order :: k in active
    ensures |r| == |order|
  {
    seq(|order|, i requires 0 <= i < |order| => Missed(active[order[i]]))
  }

  /** The summed lengths of a list of tracks. */
  ghost function TotalLength(ss: seq<TrackState>, dist: (Vec, Vec) -> real): real
  {
    if ss == [] then 0.0 else TotalLength(ss[..|ss| - 1], dist) + PathLength(Last(ss).phistory, dist)
  }

  /** The records of the valid tracks of a list, in list order. */
  ghost function ValidRecords(ss: seq<TrackState>, dist: (Vec, Vec) -> real, inRoi: Vec -> bool): seq<TrackRecord>
  {
    if ss == [] then []
    else ValidRecords(ss[..|ss| - 1], dist, inRoi)
         + (if ValidTrack(Last(ss), dist, inRoi, MinLength) then [Snapshot(Last(ss), dist)] else [])
  }

  /** The first loop of `update`: every key of `keys` measured from the frame. */
  ghost function MeasuredKeys(active: map<string, TrackState>, keys: set<string>, frame: map<string, Detection>,
                              timestamp: int): (r: map<string, TrackState>)
    requires forall k | k in keys :: k in frame && frame[k].utm.Some?
    ensures r.Keys == active.Keys
  {
    map k | k in active :: if k in keys then Measure(active[k], timestamp, frame[k]) else active[k]
  }

  /** The second loop of `update`: a new track for every key of `keys`. */
  ghost function StartedKeys(keys: set<string>, frame: map<string, Detection>, timestamp: int)
    : map<string, TrackState>
    requires forall k | k in keys :: k in frame && frame[k].utm.Some? && RoadLabel(frame[k].radar).Some?
  {
    map k | k in keys :: Start(k, timestamp, frame[k])
  }

  /** The third loop of `update`: every key of `keys` misses the frame, and is dropped past the window. */
  ghost function MissedKeys(active: map<string, TrackState>, keys: set<string>, maxMissing: int)
    : map<string, TrackState>
  {
    map k | k in active && (k !in keys || active[k].missing + 1 <= maxMissing) ::
      if k in keys then Missed(active[k]) else active[k]
  }

  /** The three loops of `update`, run in order on the frame's update, missing and new keys, give the next active tracks. */
  lemma PhasesCompose(active: map<string, TrackState>, frame: map<string, Detection>, timestamp: int,
                      maxMissing: int)
    requires FrameReady(frame, active.Keys)
    ensures var updated := active.Keys * frame.Keys;
            MissedKeys(MeasuredKeys(active, updated, frame, timestamp)
                       + StartedKeys(frame.Keys - updated, frame, timestamp),
                       active.Keys - updated, maxMissing)
            == NextActive(active, frame, timestamp, maxMissing)
  {
  }

  /** Only keys outside `keys` and unaffected entries keep their state through a measurement loop. */
  lemma MeasuredKeysStep(active: map<string, TrackState>, keys: set<string>, frame: map<string, Detection>,
                         timestamp: int, k: string)
    requires forall j | j in keys + {k} :: j in frame && frame[j].utm.Some?
    requires k in active && k !in keys
    ensures MeasuredKeys(active, keys + {k}, frame, timestamp)
            == MeasuredKeys(active, keys, frame, timestamp)[k := Measure(active[k], timestamp, frame[k])]
  {
  }

  lemma StartedKeysStep(active: map<string, TrackState>, keys: set<string>, frame: map<string, Detection>,
                        timestamp: int, k: string)
    requires forall j | j in keys + {k} :: j in frame && frame[j].utm.Some? && RoadLabel(frame[j].radar).Some?
    ensures active + StartedKeys(keys + {k}, frame, timestamp)
            == (active + StartedKeys(keys, frame, timestamp))[k := Start(k, timestamp, frame[k])]
  {
  }

  lemma MissedKeysStep(active: map<string, TrackState>, keys: set<string>, maxMissing: int, k: string)
    requires k in active && k !in keys
    ensures var before := MissedKeys(active, keys, maxMissing);
            k in before && before[k] == active[k]
            && MissedKeys(active, keys + {k}, maxMissing)
               == if active[k].missing + 1 > maxMissing then before - {k} else before[k := Missed(active[k])]
  {
  }

  /** Extending the finalisation order by one key extends the finalised states by that track. */
  lemma FinalizedSnoc(active: map<string, TrackState>, order: seq<string>, k: string, dist: (Vec, Vec) -> real,
                      inRoi: Vec -> bool)
    requires forall k | k in order :: k in active
    requires k in active
    ensures var ss := FinalizedStates(active, order);
            var s := Missed(active[k]);
            FinalizedStates(active, order + [k]) == ss + [s]
            && TotalLength(ss + [s], dist) == TotalLength(ss, dist) + PathLength(active[k].phistory, dist)
            && ValidRecords(ss + [s], dist, inRoi)
               == ValidRecords(ss, dist, inRoi)
                  + (if ValidTrack(s, dist, inRoi, MinLength) then [Snapshot(s, dist)] else [])
  {
    var ss := FinalizedStates(active, order);
    var s := Missed(active[k]);
    assert (ss + [s])[..|ss|] == ss;
  }

  /**
   * One key of the third loop: if it expires, its final state joins the finalised tracks, adding its path
   * length to the total and, when it passes the validity gate, its snapshot to the complete tracks.
   */
  lemma FinalizedStep(active: map<string, TrackState>, order: seq<string>, k: string, maxMissing: int,
                      dist: (Vec, Vec) -> real, inRoi: Vec -> bool, baseComplete: seq<TrackRecord>, baseTotal: real,
                      completeBefore: seq<TrackRecord>, totalBefore: real,
                      completeAfter: seq<TrackRecord>, totalAfter: real)
    requires forall k | k in order :: k in active
    requires k in active
    requires completeBefore == baseComplete + ValidRecords(FinalizedStates(active, order), dist, inRoi)
    requires totalBefore == baseTotal + TotalLength(FinalizedStates(active, order), dist)
    requires var gone := active[k].missing + 1 > maxMissing;
             var s := Missed(active[k]);
             completeAfter == completeBefore + (if gone && ValidTrack(s, dist, inRoi, MinLength)
                                                then [Snapshot(s, dist)] else [])
             && totalAfter == totalBefore + (if gone then PathLength(active[k].phistory, dist) else 0.0)
    ensures var next := if active[k].missing + 1 > maxMissing then order + [k] else order;
            completeAfter == baseComplete + ValidRecords(FinalizedStates(active, next), dist, inRoi)
            && totalAfter == baseTotal + TotalLength(FinalizedStates(active, next), dist)
  {
    FinalizedSnoc(active, order, k, dist, inRoi);
  }

  /** The finalised states only depend on the entries of the keys finalised. */
  lemma FinalizedStatesAgree(a: map<string, TrackState>, b: map<string, TrackState>, order: seq<string>)
    requires forall k | k in order :: k in a && k in b && a[k] == b[k]
    ensures FinalizedStates(a, order) == FinalizedStates(b, order)
  {
  }

  /** Moving `k` from the pending keys to the processed ones keeps the split of `keys` and counts one more. */
  lemma TakeOne(keys: set<string>, todo: set<string>, done: set<string>, k: string)
    requires todo !! done && todo + done == keys && k in todo
    ensures (todo - {k}) !! (done + {k}) && (todo - {k}) + (done + {k}) == keys
    ensures k in keys && k !in done && |done + {k}| == |done| + 1
  {
  }

  // ---------------------------------------------------------------------
  // What one frame, and a run of frames, does to a key

  /**
   * Every key of the frame is active afterwards, just measured: its counter
   * is 0 and its last timestamp is the frame's. A known key gets the
   * frame's position and velocity appended; a new key starts a track under
   * its own id on the road its radar name labels.
   */
  lemma FrameKeysActive(active: map<string, TrackState>, frame: map<string, Detection>, timestamp: int,
                        maxMissing: int)
    requires FrameReady(frame, active.Keys)
    ensures var next := NextActive(active, frame, timestamp, maxMissing);
            forall k | k in frame :: k in next && next[k].missing == 0 && Last(next[k].time) == timestamp
              && Last(next[k].phistory) == UtmPosition(frame[k].utm.value)
              && Last(next[k].vhistory) == UtmVelocity(frame[k].utm.value)
    ensures var next := NextActive(active, frame, timestamp, maxMissing);
            forall k | k in frame && k in active ::
              next[k].time[..|next[k].time| - 1] == active[k].time
              && next[k].phistory[..|next[k].phistory| - 1] == active[k].phistory
              && next[k].vhistory[..|next[k].vhistory| - 1] == active[k].vhistory
              && next[k].(missing := 0, time := [], phistory := [], vhistory := [])
                 == active[k].(missing := 0, time := [], phistory := [], vhistory := [])
    ensures var next := NextActive(active, frame, timestamp, maxMissing);
            forall k | k in frame && k !in active ::
              next[k].id == k && next[k].road == RoadLabel(frame[k].radar).value
              && next[k].vehicleType == frame[k].vehicleClass && next[k].radar == frame[k].radar
              && |next[k].time| == 1
  {
    var next := NextActive(active, frame, timestamp, maxMissing);
    forall k | k in frame && k in active
      ensures next[k].time[..|next[k].time| - 1] == active[k].time
      ensures next[k].phistory[..|next[k].phistory| - 1] == active[k].phistory
      ensures next[k].vhistory[..|next[k].vhistory| - 1] == active[k].vhistory
    {
      assert next[k] == Measure(active[k], timestamp, frame[k]);
    }
  }

  /**
   * A track absent from the frame has its counter raised by exactly one
   * and nothing else changed, and leaves the active tracks exactly when it
   * is finalised, that is when the raised counter exceeds `maxMissing`.
   */
  lemma AbsentTrackStep(active: map<string, TrackState>, frame: map<string, Detection>, timestamp: int,
                        maxMissing: int, k: string)
    requires FrameReady(frame, active.Keys)
    requires k in active && k !in frame
    ensures var next := NextActive(active, frame, timestamp, maxMissing);
            (k in next <==> active[k].missing + 1 <= maxMissing)
            && (k in next <==> k !in FinalizedKeys(active, frame, maxMissing))
            && (k in next ==> next[k] == active[k].(missing := active[k].missing + 1))
  {
  }

  /** Every entry carries UTM keys and a road label, so the frame is ready whatever is tracked. */
  ghost predicate ReadyForAny(frame: map<string, Detection>)
  {
    forall k | k in frame :: frame[k].utm.Some? && RoadLabel(frame[k].radar).Some?
  }

  /**
   * The active tracks after a run of frames, each given with its timestamp.
   * It replays only frames whose every entry is ready (`ReadyForAny`), a
   * stronger demand than the `FrameReady` that `update` needs of one frame,
   * so that no frame's readiness depends on the tracks before it.
   */
  ghost function Replay(active: map<string, TrackState>, frames: seq<(map<string, Detection>, int)>,
                        maxMissing: int): map<string, TrackState>
    requires forall i | 0 <= i < |frames| :: ReadyForAny(frames[i].0)
    decreases |frames|
  {
    if frames == [] then active
    else
      assert ReadyForAny(frames[0].0);
      Replay(NextActive(active, frames[0].0, frames[0].1, maxMissing), frames[1..], maxMissing)
  }

  /**
   * The grace window: a key absent from a run of frames stays active, with
   * its counter raised once per frame and the rest of its track untouched,
   * exactly while the raised counter does not exceed `maxMissing`; and a key
   * that is not active never appears from frames that do not carry it.
   */
  lemma {:induction false} AbsentThroughout(active: map<string, TrackState>,
                                            frames: seq<(map<string, Detection>, int)>, maxMissing: int, k: string)
    requires forall i | 0 <= i < |frames| :: ReadyForAny(frames[i].0) && k !in frames[i].0
    ensures k in Replay(active, frames, maxMissing) <==>
            k in active && (frames == [] || active[k].missing + |frames| <= maxMissing)
    ensures k in Replay(active, frames, maxMissing) ==>
            Replay(active, frames, maxMissing)[k] == active[k].(missing := active[k].missing + |frames|)
    decreases |frames|
  {
    if frames != [] {
      var next := NextActive(active, frames[0].0, frames[0].1, maxMissing);
      assert forall i | 0 <= i < |frames[1..]| :: frames[1..][i] == frames[i + 1];
      AbsentThroughout(next, frames[1..], maxMissing, k);
    }
  }

  /** With `max_missing = 2`, a just-measured track survives two absent frames and is removed on the third. */
  lemma GraceOfTwoFrames(active: map<string, TrackState>, frames: seq<(map<string, Detection>, int)>, k: string)
    requires |frames| == 3
    requires forall i | 0 <= i < 3 :: ReadyForAny(frames[i].0) && k !in frames[i].0
    requires k in active && active[k].missing == 0
    ensures k in Replay(active, frames[..1], 2) && Replay(active, frames[..1], 2)[k].missing == 1
    ensures k in Replay(active, frames[..2], 2) && Replay(active, frames[..2], 2)[k].missing == 2
    ensures k !in Replay(active, frames, 2)
  {
    AbsentThroughout(active, frames[..1], 2, k);
    AbsentThroughout(active, frames[..2], 2, k);
    AbsentThroughout(active, frames, 2, k);
  }

  // ---------------------------------------------------------------------
  // Statistics over the completed tracks

  function LengthsOf(rs: seq<TrackRecord>): (r: seq<real>)
    ensures |r| == |rs|
  {
    if rs == [] then [] else LengthsOf(rs[..|rs| - 1]) + [Last(rs).length]
  }

  function RoadsOf(rs: seq<TrackRecord>): (r: seq<string>)
    ensures |r| == |rs|
  {
    if rs == [] then [] else RoadsOf(rs[..|rs| - 1]) + [Last(rs).road]
  }

  function TypesOf(rs: seq<TrackRecord>): (r: seq<string>)
    ensures |r| == |rs|
  {
    if rs == [] then [] else TypesOf(rs[..|rs| - 1]) + [Last(rs).vehicleType]
  }

  /** The number of pass-by records: those without a single idle sample. */
  function PassBys(rs: seq<TrackRecord>): (n: nat)
    ensures n <= |rs|
  {
    if rs == [] then 0 else PassBys(rs[..|rs| - 1]) + (if Last(rs).idleCount == 0 then 1 else 0)
  }

  function Sum(s: seq<real>): real
  {
    if s == [] then 0.0 else Sum(s[..|s| - 1]) + Last(s)
  }

  /**
   * The counters kept beside the completed tracks agree: one length per
   * record, per-road and per-type counts summing to the number of records,
   * and at most that many pass-bys.
   */
  lemma CountersAgree(rs: seq<TrackRecord>)
    ensures |LengthsOf(rs)| == |rs|
    ensures SumValues(Tally(RoadsOf(rs))) == |rs|
    ensures SumValues(Tally(TypesOf(rs))) == |rs|
    ensures PassBys(rs) <= |rs|
  {
    TallySum(RoadsOf(rs));
    TallySum(TypesOf(rs));
  }

  /** Appending one record extends every derived statistic by that record alone. */
  lemma StatisticsSnoc(rs: seq<TrackRecord>, r: TrackRecord)
    ensures LengthsOf(rs + [r]) == LengthsOf(rs) + [r.length]
    ensures Tally(RoadsOf(rs + [r])) == Bump(Tally(RoadsOf(rs)), r.road)
    ensures Tally(TypesOf(rs + [r])) == Bump(Tally(TypesOf(rs)), r.vehicleType)
    ensures PassBys(rs + [r]) == PassBys(rs) + (if r.idleCount == 0 then 1 else 0)
  {
    assert (rs + [r])[..|rs|] == rs;
    assert RoadsOf(rs + [r]) == RoadsOf(rs) + [r.road];
    assert RoadsOf(rs + [r])[..|rs|] == RoadsOf(rs);
    assert TypesOf(rs + [r]) == TypesOf(rs) + [r.vehicleType];
    assert TypesOf(rs + [r])[..|rs|] == TypesOf(rs);
  }

  /** A completed record: validated, and finalised one frame past the grace window. */
  ghost predicate RecordValid(r: TrackRecord, maxMissing: int, inRoi: Vec -> bool)
  {
    r.length >= MinLength && r.phistory != [] && inRoi(Last(r.phistory)) && r.missing == Max0(maxMissing) + 1
  }

  /**
   * The run statistics describe the completed records: one length per
   * record, per-road and per-type tallies, the pass-by count, the summed
   * length of the completed tracks (bounded by that of all finalised
   * tracks), and at most one record per finalised track.
   */
  ghost predicate StatsAgree(records: seq<TrackRecord>, lengths: seq<real>, roads: map<string, nat>,
                             types: map<string, nat>, passBys: nat, totalComplete: real, total: real,
                             finalized: nat, maxMissing: int, inRoi: Vec -> bool)
  {
    lengths == LengthsOf(records)
    && roads == Tally(RoadsOf(records))
    && types == Tally(TypesOf(records))
    && passBys == PassBys(records)
    && totalComplete == Sum(lengths)
    && totalComplete <= total
    && (forall i | 0 <= i < |records| :: RecordValid(records[i], maxMissing, inRoi))
    && |records| <= finalized
  }

  /** Finalising a valid track adds its record to every statistic and keeps them consistent. */
  lemma StatsAfterValid(records: seq<TrackRecord>, lengths: seq<real>, roads: map<string, nat>,
                        types: map<string, nat>, passBys: nat, totalComplete: real, total: real,
                        finalized: nat, maxMissing: int, inRoi: Vec -> bool, r: TrackRecord)
    requires StatsAgree(records, lengths, roads, types, passBys, totalComplete, total, finalized, maxMissing, inRoi)
    requires RecordValid(r, maxMissing, inRoi)
    ensures StatsAgree(records + [r], lengths + [r.length], Bump(roads, r.road), Bump(types, r.vehicleType),
                       passBys + (if r.idleCount == 0 then 1 else 0), totalComplete + r.length, total + r.length,
                       finalized + 1, maxMissing, inRoi)
  {
    StatisticsSnoc(records, r);
    assert (lengths + [r.length])[..|lengths|] == lengths;
  }

  /** Finalising an invalid track only adds to the total length, which never falls below the complete one. */
  lemma StatsAfterInvalid(records: seq<TrackRecord>, lengths: seq<real>, roads: map<string, nat>,
                          types: map<string, nat>, passBys: nat, totalComplete: real, total: real,
                          finalized: nat, maxMissing: int, inRoi: Vec -> bool, length: real)
    requires StatsAgree(records, lengths, roads, types, passBys, totalComplete, total, finalized, maxMissing, inRoi)
    requires length >= 0.0
    ensures StatsAgree(records, lengths, roads, types, passBys, totalComplete, total + length, finalized + 1,
                       maxMissing, inRoi)
  {
  }

  // ---------------------------------------------------------------------
  // The `RadarTrackManager` class

  /** Follows every vehicle across frames and keeps the run's statistics. */
  class RadarTrackManager {
    /** The live tracks by key. */
    var tracks: map<string, Track>
    /** Their contents, as values. */
    ghost var Active: map<string, TrackState>
    const maxMissing: int
    /** Keys ever started. */
    var trackCount: nat
    /** Records of the finalised tracks that passed validation. */
    var completeTracks: seq<TrackRecord>
    /** `validation_roi` as a membership test. */
    const inRoi: Vec -> bool
    const dist: (Vec, Vec) -> real
    var lengths: seq<real>
    var types: map<string, nat>
    var roads: map<string, nat>
    var passByCount: nat
    var totalLength: real
    var totalLengthComplete: real
    /** Tracks finalised so far, valid or not. */
    ghost var finalized: nat
    /** Every track object the manager has created, live or finalised. */
    ghost var Repr: set<Track>

    /** Each live track is stored under its own key, holds that key as its id, and is within the window. */
    ghost predicate Coupled()
      reads this, Repr
    {
      Active.Keys == tracks.Keys
      && (forall k | k in tracks :: tracks[k] in Repr && tracks[k].Valid() && Active[k] == tracks[k].State())
      && (forall k | k in Active :: Active[k].id == k && Active[k].missing <= Max0(maxMissing))
    }

    /** The run statistics agree with the completed tracks; this reads the statistics fields only. */
    ghost predicate StatsValid()
      reads this`completeTracks, this`lengths, this`roads, this`types, this`passByCount, this`totalLengthComplete,
            this`totalLength, this`finalized
    {
      StatsAgree(completeTracks, lengths, roads, types, passByCount, totalLengthComplete, totalLength,
                 finalized, maxMissing, inRoi)
    }

    ghost predicate Valid()
      reads this, Repr
    {
      Coupled() && IsDistance(dist) && StatsValid()
    }

    constructor (inRoi: Vec -> bool, dist: (Vec, Vec) -> real, maxMissing: int)
      requires IsDistance(dist)
      ensures Valid() && fresh(Repr)
      ensures Active == map[] && trackCount == 0 && completeTracks == []
      ensures this.inRoi == inRoi && this.dist == dist && this.maxMissing == maxMissing
      ensures totalLength == 0.0 && passByCount == 0 && finalized == 0
    {
      tracks := map[];
      Active := map[];
      this.maxMissing := maxMissing;
      trackCount := 0;
      completeTracks := [];
      this.inRoi := inRoi;
      this.dist := dist;
      lengths := [];
      types := map[];
      roads := map[];
      passByCount := 0;
      totalLength := 0.0;
      totalLengthComplete := 0.0;
      finalized := 0;
      Repr := {};
    }

    /** `_is_valid_track`. */
    method IsValidTrack(track: Track, minLength: real) returns (valid: bool)
      ensures valid == ValidTrack(track.State(), dist, inRoi, minLength)
    {
      var length := track.Length(dist);
      valid := length >= minLength && track.phistory != [] && inRoi(track.phistory[|track.phistory| - 1]);
    }

    /** `_update_statistics`: one more length, road, vehicle type and possibly pass-by. */
    method UpdateStatistics(track: Track)
      modifies this`lengths, this`roads, this`types, this`passByCount
      ensures lengths == old(lengths) + [PathLength(track.phistory, dist)]
      ensures roads == Bump(old(roads), track.road)
      ensures types == Bump(old(types), track.vehicleType)
      ensures passByCount == old(passByCount) + (if IdleCount(track.vhistory) == 0 then 1 else 0)
    {
      var length := track.Length(dist);
      lengths := lengths + [length];
      roads := Bump(roads, track.road);
      types := Bump(types, track.vehicleType);
      var idle := track.IdleTime();
      if idle == 0 {
        passByCount := passByCount + 1;
      }
    }

    /** `get_complete_tracks`: every record returned passed validation. */
    method GetCompleteTracks() returns (records: seq<TrackRecord>)
      requires Valid()
      ensures records == completeTracks
      ensures forall i | 0 <= i < |records| ::
        records[i].length >= MinLength && records[i].phistory != [] && inRoi(Last(records[i].phistory))
    {
      records := completeTracks;
    }

    /** The counters describe exactly the completed tracks. */
    lemma Accounting()
      requires Valid()
      ensures |lengths| == |completeTracks|
      ensures SumValues(roads) == |completeTracks| && SumValues(types) == |completeTracks|
      ensures passByCount <= |completeTracks| <= finalized
      ensures totalLengthComplete <= totalLength
    {
      CountersAgree(completeTracks);
    }

    /** Changing one live track keeps the coupling when its id and window bound still hold. */
    twostate lemma CoupledAfterChange(k: string)
      requires old(Coupled()) && k in old(tracks) && tracks == old(tracks) && Repr == old(Repr)
      requires tracks[k].Valid() && tracks[k].id == k && tracks[k].missing <= Max0(maxMissing)
      requires forall o | o in old(Repr) && o != tracks[k] :: unchanged(o)
      requires Active == old(Active)[k := tracks[k].State()]
      ensures Coupled()
    {
      forall j | j in tracks
        ensures tracks[j].Valid() && Active[j] == tracks[j].State()
      {
        if j != k {
          assert tracks[j] != tracks[k] && tracks[j] in old(Repr);
        }
      }
    }

    /** Dropping one live track keeps the coupling. */
    twostate lemma CoupledAfterRemove(k: string)
      requires old(Coupled()) && k in old(tracks)
      requires tracks == old(tracks) - {k} && Active == old(Active) - {k} && Repr == old(Repr)
      requires forall o | o in old(Repr) && o != old(tracks[k]) :: unchanged(o)
      ensures Coupled()
    {
      forall j | j in tracks
        ensures tracks[j].Valid() && Active[j] == tracks[j].State()
      {
        assert old(tracks[j]) != old(tracks[k]) && old(tracks[j]) in old(Repr);
      }
    }

    /** Adding a fresh track under a new key keeps the coupling. */
    twostate lemma CoupledAfterStart(k: string, new t: Track)
      requires old(Coupled()) && k !in old(tracks) && fresh(t)
      requires tracks == old(tracks)[k := t] && Active == old(Active)[k := t.State()] && Repr == old(Repr) + {t}
      requires t.Valid() && t.id == k && t.missing == 0
      requires forall o | o in old(Repr) :: unchanged(o)
      ensures Coupled()
    {
      forall j | j in tracks
        ensures tracks[j].Valid() && Active[j] == tracks[j].State()
      {
        if j != k {
          assert old(tracks[j]) in old(Repr);
        }
      }
    }

    /** The statistics fields hold what they held in the old state. */
    twostate predicate StatsUnchanged()
      reads this
    {
      completeTracks == old(completeTracks) && lengths == old(lengths) && roads == old(roads)
      && types == old(types) && passByCount == old(passByCount) && totalLengthComplete == old(totalLengthComplete)
      && totalLength == old(totalLength) && finalized == old(finalized)
    }

    /** Leaving the statistics fields alone keeps them consistent. */
    twostate lemma StatsKept()
      requires old(StatsValid()) && StatsUnchanged()
      ensures StatsValid()
    {
    }

    /** One key present in the tracked set and in the frame: measure it. */
    method ApplyMeasurement(k: string, timestamp: int, d: Detection)
      requires Coupled() && k in tracks && d.utm.Some?
      modifies tracks[k], this`Active
      ensures Coupled() && StatsUnchanged()
      ensures tracks == old(tracks)
      ensures Active == old(Active)[k := Measure(old(Active)[k], timestamp, d)]
    {
      var u := d.utm.value;
      var t := tracks[k];
      t.AddMeasurement(timestamp, UtmPosition(u), UtmVelocity(u));
      Active := Active[k := t.State()];
      assert StatsUnchanged();
      CoupledAfterChange(k);
    }

    /** One key present only in the frame: start a track for it. */
    method StartTrack(k: string, timestamp: int, d: Detection)
      requires Coupled() && k !in tracks && d.utm.Some? && RoadLabel(d.radar).Some?
      modifies this`tracks, this`Active, this`trackCount, this`Repr
      ensures Coupled() && StatsUnchanged()
      ensures k in tracks && fresh(tracks[k])
      ensures tracks == old(tracks)[k := tracks[k]] && Repr == old(Repr) + {tracks[k]}
      ensures Active == old(Active)[k := Start(k, timestamp, d)]
      ensures trackCount == old(trackCount) + 1
    {
      var u := d.utm.value;
      var t := new Track(timestamp, UtmPosition(u), UtmVelocity(u), d.vehicleClass, RoadLabel(d.radar).value, d.radar);
      t.id := k;
      tracks := tracks[k := t];
      Active := Active[k := t.State()];
      Repr := Repr + {t};
      trackCount := trackCount + 1;
      assert StatsUnchanged();
      CoupledAfterStart(k, t);
    }

    /**
     * The finalisation of a track past the window: its length joins the
     * total, and when it passes validation its record joins the completed
     * tracks and the statistics.
     */
    method Finalize(t: Track)
      requires IsDistance(dist) && t.Valid() && t.missing == Max0(maxMissing) + 1
      requires StatsValid()
      modifies this`completeTracks, this`lengths, this`roads, this`types, this`passByCount, this`totalLength,
               this`totalLengthComplete, this`finalized
      ensures StatsValid()
      ensures totalLength == old(totalLength) + PathLength(t.phistory, dist)
      ensures completeTracks == old(completeTracks) +
        (if ValidTrack(t.State(), dist, inRoi, MinLength) then [Snapshot(t.State(), dist)] else [])
      ensures finalized == old(finalized) + 1
    {
      var length := t.Length(dist);
      totalLength := totalLength + length;
      var valid := IsValidTrack(t, MinLength);
      if valid {
        var record := t.GetDict(dist);
        completeTracks := completeTracks + [record];
        UpdateStatistics(t);
        totalLengthComplete := totalLengthComplete + length;
        StatsAfterValid(old(completeTracks), old(lengths), old(roads), old(types), old(passByCount),
                        old(totalLengthComplete), old(totalLength), old(finalized), maxMissing, inRoi, record);
      } else {
        StatsAfterInvalid(old(completeTracks), old(lengths), old(roads), old(types), old(passByCount),
                          old(totalLengthComplete), old(totalLength), old(finalized), maxMissing, inRoi, length);
      }
      finalized := finalized + 1;
    }

    /** The miss that takes the track of `k` past the window: count it, finalise the track and drop it. */
    method Retire(k: string)
      requires Valid() && k in tracks && Active[k].missing + 1 > maxMissing
      modifies tracks[k], this`tracks, this`Active, this`completeTracks, this`lengths, this`roads, this`types,
               this`passByCount, this`totalLength, this`totalLengthComplete, this`finalized
      ensures Valid()
      ensures tracks == old(tracks) - {k} && Active == old(Active) - {k}
      ensures totalLength == old(totalLength) + PathLength(old(Active)[k].phistory, dist)
      ensures completeTracks == old(completeTracks) +
        (if ValidTrack(Missed(old(Active)[k]), dist, inRoi, MinLength) then [Snapshot(Missed(old(Active)[k]), dist)] else [])
      ensures finalized == old(finalized) + 1
    {
      var t := tracks[k];
      t.missing := t.missing + 1;
      assert t.State() == Missed(old(Active)[k]);
      Finalize(t);
      tracks := tracks - {k};
      Active := Active - {k};
      CoupledAfterRemove(k);
    }

    /** A miss that leaves the track of `k` within the window: count it. */
    method CountMiss(k: string)
      requires Valid() && k in tracks && Active[k].missing + 1 <= maxMissing
      modifies tracks[k], this`Active
      ensures Valid() && StatsUnchanged() && tracks == old(tracks)
      ensures Active == old(Active)[k := Missed(old(Active)[k])]
    {
      var t := tracks[k];
      t.missing := t.missing + 1;
      assert t.State() == Missed(old(Active)[k]);
      Active := Active[k := t.State()];
      CoupledAfterChange(k);
      assert StatsUnchanged();
      StatsKept();
    }

    /**
     * One key tracked but absent from the frame: its counter rises by one,
     * and a track whose counter then exceeds the window is finalised.
     */
    method MarkMissing(k: string) returns (gone: bool)
      requires Valid() && k in tracks
      modifies tracks[k], this`tracks, this`Active, this`completeTracks, this`lengths, this`roads, this`types,
               this`passByCount, this`totalLength, this`totalLengthComplete, this`finalized
      ensures Valid()
      ensures gone == (old(Active)[k].missing + 1 > maxMissing)
      ensures tracks == if gone then old(tracks) - {k} else old(tracks)
      ensures Active == if gone then old(Active) - {k} else old(Active)[k := Missed(old(Active)[k])]
      ensures totalLength == old(totalLength) + (if gone then PathLength(old(Active)[k].phistory, dist) else 0.0)
      ensures completeTracks == old(completeTracks) +
        (if gone && ValidTrack(Missed(old(Active)[k]), dist, inRoi, MinLength)
         then [Snapshot(Missed(old(Active)[k]), dist)] else [])
      ensures finalized == old(finalized) + (if gone then 1 else 0)
    {
      gone := tracks[k].missing + 1 > maxMissing;
      if gone {
        Retire(k);
      } else {
        CountMiss(k);
      }
    }

    /** `for ID in updateIDs`: measure every key of `keys`, in some order. */
    method MeasureKnown(keys: set<string>, frame: map<string, Detection>, timestamp: int)
      requires Coupled() && keys <= tracks.Keys
      requires forall k | k in keys :: k in frame && frame[k].utm.Some?
      modifies Repr, this`Active
      ensures Coupled() && StatsUnchanged() && tracks == old(tracks)
      ensures Active == MeasuredKeys(old(Active), keys, frame, timestamp)
    {
      var todo := keys;
      ghost var done := {};
      while todo != {}
        invariant todo !! done && todo + done == keys
        invariant Coupled() && StatsUnchanged() && tracks == old(tracks)
        invariant Active == MeasuredKeys(old(Active), done, frame, timestamp)
        decreases todo
      {
        var k :| k in todo;
        TakeOne(keys, todo, done, k);
        MeasuredKeysStep(old(Active), done, frame, timestamp, k);
        ApplyMeasurement(k, timestamp, frame[k]);
        todo := todo - {k};
        done := done + {k};
      }
      assert done == keys;
    }

    /** `for ID in newIDs`: start a track for every key of `keys`, in some order. */
    method StartNew(keys: set<string>, frame: map<string, Detection>, timestamp: int)
      requires Coupled() && keys !! tracks.Keys
      requires forall k | k in keys :: k in frame && frame[k].utm.Some? && RoadLabel(frame[k].radar).Some?
      modifies this`tracks, this`Active, this`trackCount, this`Repr
      ensures Coupled() && StatsUnchanged()
      ensures Active == old(Active) + StartedKeys(keys, frame, timestamp)
      ensures trackCount == old(trackCount) + |keys|
      ensures forall j | j in old(tracks) :: j in tracks && tracks[j] == old(tracks)[j]
    {
      var todo := keys;
      ghost var done := {};
      while todo != {}
        invariant todo !! done && todo + done == keys
        invariant Coupled() && StatsUnchanged()
        invariant Active == old(Active) + StartedKeys(done, frame, timestamp)
        invariant trackCount == old(trackCount) + |done|
        invariant forall j | j in old(tracks) :: j in tracks && tracks[j] == old(tracks)[j]
        decreases todo
      {
        var k :| k in todo;
        TakeOne(keys, todo, done, k);
        StartedKeysStep(old(Active), done, frame, timestamp, k);
        StartTrack(k, timestamp, frame[k]);
        todo := todo - {k};
        done := done + {k};
      }
      assert done == keys;
    }

    /**
     * `for ID in missingIDs`: every key of `keys` misses the frame; those
     * past the window are finalised, in the order `order`.
     */
    method MissAbsent(keys: set<string>, ghost objs: set<Track>) returns (ghost order: seq<string>)
      requires Valid() && keys <= tracks.Keys
      requires forall k | k in keys :: tracks[k] in objs
      modifies objs, this`tracks, this`Active, this`completeTracks, this`lengths, this`roads, this`types,
               this`passByCount, this`totalLength, this`totalLengthComplete, this`finalized
      ensures Valid()
      ensures Active == MissedKeys(old(Active), keys, maxMissing)
      ensures IsEnumeration(order, ExpiredKeys(old(Active), keys, maxMissing))
      ensures totalLength == old(totalLength) + TotalLength(FinalizedStates(old(Active), order), dist)
      ensures completeTracks == old(completeTracks) + ValidRecords(FinalizedStates(old(Active), order), dist, inRoi)
      ensures finalized == old(finalized) + |order|
    {
      ghost var active0, complete0, total0 := Active, completeTracks, totalLength;
      var todo := keys;
      ghost var done := {};
      order := [];
      while todo != {}
        invariant todo !! done && todo + done == keys
        invariant forall k | k in todo :: k in tracks && tracks[k] in objs
        invariant Valid()
        invariant Active == MissedKeys(active0, done, maxMissing)
        invariant IsEnumeration(order, ExpiredKeys(active0, done, maxMissing))
        invariant totalLength == total0 + TotalLength(FinalizedStates(active0, order), dist)
        invariant completeTracks == complete0
                                    + ValidRecords(FinalizedStates(active0, order), dist, inRoi)
        invariant finalized == old(finalized) + |order|
        decreases todo
      {
        var k :| k in todo;
        TakeOne(keys, todo, done, k);
        MissedKeysStep(active0, done, maxMissing, k);
        ExpiredStep(active0, done, maxMissing, order, k);
        ghost var completeBefore, totalBefore := completeTracks, totalLength;
        var gone := MarkMissing(k);
        FinalizedStep(active0, order, k, maxMissing, dist, inRoi, complete0, total0,
                      completeBefore, totalBefore, completeTracks, totalLength);
        order := if gone then order + [k] else order;
        todo := todo - {k};
        done := done + {k};
      }
      assert done == keys;
    }

    /**
     * `update`: one frame of detections at `timestamp`. On error nothing
     * changes; otherwise the frame is applied as `ApplyFrame` states.
     */
    method Update(data: seq<Detection>, timestamp: int) returns (outcome: Outcome<UpdateError>, ghost order: seq<string>)
      requires Valid()
      modifies this, Repr
      ensures Valid()
      ensures outcome == CheckFrame(data, old(Active).Keys)
      ensures outcome.Fail? ==> unchanged(this) && order == []
      ensures outcome.Pass? ==> Active == NextActive(old(Active), FrameMap(data), timestamp, maxMissing)
      ensures outcome.Pass? ==> trackCount == old(trackCount) + |FrameMap(data).Keys - old(Active).Keys|
      ensures outcome.Pass? ==> IsEnumeration(order, FinalizedKeys(old(Active), FrameMap(data), maxMissing))
      ensures outcome.Pass? ==> forall k | k in order :: k in old(Active)
      ensures outcome.Pass? ==>
        totalLength == old(totalLength) + TotalLength(FinalizedStates(old(Active), order), dist)
      ensures outcome.Pass? ==>
        completeTracks == old(completeTracks) + ValidRecords(FinalizedStates(old(Active), order), dist, inRoi)
      ensures outcome.Pass? ==> finalized == old(finalized) + |order|
    {
      outcome := CheckFrame(data, tracks.Keys);
      if outcome.Fail? {
        order := [];
        return;
      }
      order := ApplyFrame(FrameMap(data), timestamp);
    }

    /**
     * The first two loops of `update`: the tracks of `updateIDs` are
     * measured, then a track is started for every key of `newIDs`.
     */
    method ArriveFrame(updateIDs: set<string>, newIDs: set<string>, frame: map<string, Detection>, timestamp: int)
      requires Valid() && FrameReady(frame, tracks.Keys)
      requires updateIDs == tracks.Keys * frame.Keys && newIDs == frame.Keys - updateIDs
      modifies Repr, this`tracks, this`Active, this`trackCount, this`Repr
      ensures Coupled() && StatsUnchanged()
      ensures Active == MeasuredKeys(old(Active), updateIDs, frame, timestamp) + StartedKeys(newIDs, frame, timestamp)
      ensures trackCount == old(trackCount) + |newIDs|
      ensures forall j | j in old(tracks) :: j in tracks && tracks[j] in old(Repr)
    {
      MeasureKnown(updateIDs, frame, timestamp);
      StartNew(newIDs, frame, timestamp);
    }

    /**
     * The third loop of `update`, stated against the tracks `active0` of
     * before the frame: after the first two loops left `Active` as they
     * do, the misses leave the next active tracks, and the tracks
     * finalised (in the order `order`) are those the frame finalises.
     */
    method CloseFrame(missingIDs: set<string>, ghost objs: set<Track>, ghost active0: map<string, TrackState>,
                      frame: map<string, Detection>, timestamp: int) returns (ghost order: seq<string>)
      requires Valid() && FrameReady(frame, active0.Keys)
      requires missingIDs == active0.Keys - active0.Keys * frame.Keys
      requires Active == MeasuredKeys(active0, active0.Keys * frame.Keys, frame, timestamp)
                         + StartedKeys(frame.Keys - active0.Keys * frame.Keys, frame, timestamp)
      requires forall k | k in missingIDs :: tracks[k] in objs
      modifies objs, this`tracks, this`Active, this`completeTracks, this`lengths, this`roads, this`types,
               this`passByCount, this`totalLength, this`totalLengthComplete, this`finalized
      ensures Valid()
      ensures Active == NextActive(active0, frame, timestamp, maxMissing)
      ensures IsEnumeration(order, FinalizedKeys(active0, frame, maxMissing))
      ensures forall k | k in order :: k in active0
      ensures totalLength == old(totalLength) + TotalLength(FinalizedStates(active0, order), dist)
      ensures completeTracks == old(completeTracks) + ValidRecords(FinalizedStates(active0, order), dist, inRoi)
      ensures trackCount == old(trackCount)
      ensures finalized == old(finalized) + |order|
    {
      PhasesCompose(active0, frame, timestamp, maxMissing);
      order := MissAbsent(missingIDs, objs);
      ExpiredAreFinalized(active0, frame, timestamp, maxMissing, order);
    }

    /**
     * The three loops of `update` on a frame that raises no error: the
     * active tracks follow `NextActive`, the new keys are counted, and the
     * tracks finalised (in the order `order`) are added to the totals and,
     * when valid, to the completed tracks.
     */
    method ApplyFrame(frame: map<string, Detection>, timestamp: int) returns (ghost order: seq<string>)
      requires Valid() && FrameReady(frame, tracks.Keys)
      modifies this, Repr
      ensures Valid()
      ensures Active == NextActive(old(Active), frame, timestamp, maxMissing)
      ensures trackCount == old(trackCount) + |frame.Keys - old(Active).Keys|
      ensures IsEnumeration(order, FinalizedKeys(old(Active), frame, maxMissing))
      ensures forall k | k in order :: k in old(Active)
      ensures totalLength == old(totalLength) + TotalLength(FinalizedStates(old(Active), order), dist)
      ensures completeTracks == old(completeTracks) + ValidRecords(FinalizedStates(old(Active), order), dist, inRoi)
      ensures finalized == old(finalized) + |order|
    {
      var trackedIDs := tracks.Keys;
      var measuredIDs := frame.Keys;
      var updateIDs := trackedIDs * measuredIDs;
      var missingIDs := trackedIDs - updateIDs;
      var newIDs := measuredIDs - updateIDs;
      assert trackedIDs == old(Active).Keys && newIDs == measuredIDs - trackedIDs;
      ArriveFrame(updateIDs, newIDs, frame, timestamp);
      StatsKept();
      order := CloseFrame(missingIDs, old(Repr), old(Active), frame, timestamp);
    }
  }
}
