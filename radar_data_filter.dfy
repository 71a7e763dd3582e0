/**
 * `RadarDataFilter`: the per-row clean-up of raw radar detections. It
 * renames detections reported by hardware port to the configured radar
 * name, drops detections out of bounds, adds global (UTM) coordinates to
 * those whose radar is configured exactly once, and merges the duplicate
 * detections of two overlapping radars.
 *
 * The filter object only holds the configured radars, so every operation
 * here takes them as the parameter `radars`.
 */
module RadarDataFilter {
  import opened Wrappers
  import opened Sequences
  import opened Geometry
  import opened Detections

  /** The names of the configured radars, in configuration order. */
  function RadarNames(radars: seq<RadarConfig>): (names: seq<string>)
    ensures |names| == |radars|
    ensures forall i | 0 <= i < |radars| :: names[i] == radars[i].name
  {
    seq(|radars|, i requires 0 <= i < |radars| => radars[i].name)
  }

  /** Position `i` holds the one configured radar named `name`; no other entry has that name. */
  ghost predicate OnlyNamed(radars: seq<RadarConfig>, i: int, name: string)
  {
    0 <= i < |radars| && radars[i].name == name
    && forall j | 0 <= j < |radars| && radars[j].name == name :: j == i
  }

  /**
   * The configured radars whose name is exactly `name`, in configuration
   * order; duplicate entries are kept, so the list has exactly one element
   * only when exactly one entry carries the name.
   */
  function MatchingRadars(radars: seq<RadarConfig>, name: string): (r: seq<RadarConfig>)
    ensures forall c :: c in r <==> c in radars && c.name == name
    ensures |r| == 1 <==> exists i :: OnlyNamed(radars, i, name)
    ensures forall i | OnlyNamed(radars, i, name) :: r == [radars[i]]
  {
    var p := (c: RadarConfig) => c.name == name;
    FilterSingleton(p, radars);
    assert forall i | OnlyNamed(radars, i, name) :: OnlyWith(radars, i, p);
    assert |Filter(p, radars)| == 1 ==> exists i :: OnlyNamed(radars, i, name) by {
      if |Filter(p, radars)| == 1 {
        var i :| 0 <= i < |radars| && OnlyWith(radars, i, p);
        assert OnlyNamed(radars, i, name);
      }
    }
    Filter(p, radars)
  }

  // ---------------------------------------------------------------------
  // Dropping detections in place

  /** The bounds of `filter_detections`; the unused `approach_only` flag is not modelled. */
  datatype FilterBounds = FilterBounds(
    excludeCat: seq<string>,
    maxPos: (real, real),
    maxSpeed: (real, real))

  /** The default arguments of `filter_detections`. */
  const DefaultBounds := FilterBounds(["bicycle"], (200.0, 200.0), (50.0, 3.0))

  /**
   * The condition under which `filter_detections` removes a detection: it
   * is kept exactly when its class is not excluded, its along-track speed
   * lies in `(-maxSpeed.0, 0]`, and its across-track speed and its
   * position lie strictly inside their bounds.
   */
  function OutOfBounds(b: FilterBounds, d: Detection): (out: bool)
    ensures !out <==> d.vehicleClass !in b.excludeCat
                      && -b.maxSpeed.0 < d.xSpeed <= 0.0
                      && -b.maxSpeed.1 < d.ySpeed < b.maxSpeed.1
                      && -b.maxPos.0 < d.xPos < b.maxPos.0
                      && -b.maxPos.1 < d.yPos < b.maxPos.1
  {
    d.vehicleClass in b.excludeCat
    || d.xSpeed > 0.0
    || Abs(d.xSpeed) >= b.maxSpeed.0
    || Abs(d.ySpeed) >= b.maxSpeed.1
    || Abs(d.xPos) >= b.maxPos.0
    || Abs(d.yPos) >= b.maxPos.1
  }

  /**
   * The condition under which `leave_only_approaching_cars` removes a
   * detection: it is kept exactly when it is not a bicycle, its along-track
   * speed lies in `[-50, 0]` and its across-track speed in `[-2, 2]`.
   */
  function NotApproachingCar(d: Detection): (out: bool)
    ensures !out <==> d.vehicleClass != "bicycle" && -50.0 <= d.xSpeed <= 0.0 && -2.0 <= d.ySpeed <= 2.0
  {
    d.xSpeed > 0.0 || Abs(d.xSpeed) > 50.0 || Abs(d.ySpeed) > 2.0 || d.vehicleClass == "bicycle"
  }

  /**
   * The removal idiom `to_remove = [d for d in dataset if excluded(d)]`
   * followed by `dataset.remove(r)` for each `r`: the list keeps exactly
   * the detections that are not excluded, in their original order.
   */
  method RemoveExcluded(dataset: DetectionList, excluded: Detection -> bool, ghost kept: Detection -> bool)
    requires forall d :: kept(d) == !excluded(d)
    modifies dataset
    ensures dataset.items == Filter(kept, old(dataset.items))
  {
    ghost var original := dataset.items;
    var toRemove := Filter(excluded, dataset.items);
    DropNoneMatching(excluded, original);
    for k := 0 to |toRemove|
      invariant dataset.items == DropFirstMatching(excluded, original, k)
    {
      RemoveNextMatching(excluded, original, k);
      dataset.items := RemoveFirst(dataset.items, toRemove[k]);
    }
    DropAllMatching(excluded, kept, original);
  }

  /**
   * `filter_detections`: removes, in place, every detection of an excluded
   * class, moving away from its radar (`x_speed > 0`), or reaching a speed
   * or position bound, and returns the same list.
   */
  method FilterDetections(dataset: DetectionList, b: FilterBounds) returns (same: DetectionList)
    modifies dataset
    ensures same == dataset
    ensures dataset.items == Filter(d => !OutOfBounds(b, d), old(dataset.items))
    ensures forall d | d in dataset.items ::
      d.vehicleClass !in b.excludeCat && d.xSpeed <= 0.0
      && Abs(d.xSpeed) < b.maxSpeed.0 && Abs(d.ySpeed) < b.maxSpeed.1
      && Abs(d.xPos) < b.maxPos.0 && Abs(d.yPos) < b.maxPos.1
    ensures forall d | d in old(dataset.items) && !OutOfBounds(b, d) :: d in dataset.items
  {
    RemoveExcluded(dataset, d => OutOfBounds(b, d), d => !OutOfBounds(b, d));
    FilterExtensional(d => !OutOfBounds(b, d), d => !OutOfBounds(b, d), old(dataset.items));
    same := dataset;
  }

  /**
   * `leave_only_approaching_cars`: removes, in place, every bicycle and
   * every detection moving away from its radar or faster than 50 along or
   * 2 across its boresight, and returns the same list.
   */
  method LeaveOnlyApproachingCars(dataset: DetectionList) returns (same: DetectionList)
    modifies dataset
    ensures same == dataset
    ensures dataset.items == Filter(d => !NotApproachingCar(d), old(dataset.items))
    ensures forall d | d in dataset.items ::
      d.xSpeed <= 0.0 && Abs(d.xSpeed) <= 50.0 && Abs(d.ySpeed) <= 2.0 && d.vehicleClass != "bicycle"
    ensures forall d | d in old(dataset.items) && !NotApproachingCar(d) :: d in dataset.items
  {
    RemoveExcluded(dataset, NotApproachingCar, d => !NotApproachingCar(d));
    FilterExtensional(d => !NotApproachingCar(d), d => !NotApproachingCar(d), old(dataset.items));
    same := dataset;
  }

  // ---------------------------------------------------------------------
  // Global coordinates

  /**
   * The global position and velocity of `d` as seen by `radar`: a rotation
   * by `90 - azimuth` degrees, then, for the position only, a translation
   * to the radar's UTM origin.
   */
  function ToUtm(radar: RadarConfig, trig: Trig, d: Detection): (u: Utm)
    ensures d.xPos == 0.0 && d.yPos == 0.0 ==> u.xPos == radar.easting && u.yPos == radar.northing
    ensures d.xSpeed == 0.0 && d.ySpeed == 0.0 ==> u.xSpeed == 0.0 && u.ySpeed == 0.0
    ensures var angle := 90.0 - radar.azimuth;
            trig.cosDeg(angle) == 1.0 && trig.sinDeg(angle) == 0.0 ==>
              u == Utm(radar.easting + d.xPos, radar.northing + d.yPos, d.xSpeed, d.ySpeed)
  {
    var angle := 90.0 - radar.azimuth;
    var c, s := trig.cosDeg(angle), trig.sinDeg(angle);
    Utm(radar.easting + d.xPos * c - d.yPos * s,
        radar.northing + d.xPos * s + d.yPos * c,
        d.xSpeed * c - d.ySpeed * s,
        d.xSpeed * s + d.ySpeed * c)
  }

  /**
   * The conversion can be undone: rotating the global velocity, and the
   * global position relative to the radar's origin, back by the same angle
   * gives the radar-local values again.
   */
  lemma ToUtmInverse(radar: RadarConfig, trig: Trig, d: Detection)
    requires var a := 90.0 - radar.azimuth; trig.cosDeg(a) * trig.cosDeg(a) + trig.sinDeg(a) * trig.sinDeg(a) == 1.0
    ensures var a := 90.0 - radar.azimuth;
            var c, s, u := trig.cosDeg(a), trig.sinDeg(a), ToUtm(radar, trig, d);
            Rotate(c, -s, Vec(u.xSpeed, u.ySpeed)) == Vec(d.xSpeed, d.ySpeed)
            && Rotate(c, -s, Vec(u.xPos - radar.easting, u.yPos - radar.northing)) == Vec(d.xPos, d.yPos)
  {
    var a := 90.0 - radar.azimuth;
    var c, s := trig.cosDeg(a), trig.sinDeg(a);
    var u := ToUtm(radar, trig, d);
    assert Vec(u.xSpeed, u.ySpeed) == Rotate(c, s, Vec(d.xSpeed, d.ySpeed));
    assert Vec(u.xPos - radar.easting, u.yPos - radar.northing) == Rotate(c, s, Vec(d.xPos, d.yPos));
    RotateBack(c, s, Vec(d.xSpeed, d.ySpeed));
    RotateBack(c, s, Vec(d.xPos, d.yPos));
  }

  /** Whether the detection's radar name resolves to exactly one configured radar. */
  function HasOneRadar(radars: seq<RadarConfig>, d: Detection): (one: bool)
    ensures one <==> exists i :: OnlyNamed(radars, i, d.radar)
  {
    |MatchingRadars(radars, d.radar)| == 1
  }

  /**
   * One element of `convert_xy_to_utm`: with exactly one matching radar,
   * the local position and speed are replaced by global ones; otherwise the
   * detection is left as it is.
   */
  function XyToUtm(radars: seq<RadarConfig>, trig: Trig, d: Detection): (r: Detection)
    ensures !HasOneRadar(radars, d) ==> r == d
    ensures r.id == d.id && r.radar == d.radar && r.vehicleClass == d.vehicleClass && r.utm == d.utm
  {
    var matching := MatchingRadars(radars, d.radar);
    if |matching| == 1 then
      var u := ToUtm(matching[0], trig, d);
      d.(xPos := u.xPos, yPos := u.yPos, xSpeed := u.xSpeed, ySpeed := u.ySpeed)
    else d
  }

  /**
   * `convert_xy_to_utm`: a converted copy of the list, element by element;
   * the input is not touched.
   */
  method ConvertXyToUtm(radars: seq<RadarConfig>, trig: Trig, dataset: seq<Detection>)
    returns (newDataset: seq<Detection>)
    ensures |newDataset| == |dataset|
    ensures forall i | 0 <= i < |dataset| :: newDataset[i] == XyToUtm(radars, trig, dataset[i])
  {
    newDataset := dataset;
    for i := 0 to |newDataset|
      invariant |newDataset| == |dataset|
      invariant forall k | 0 <= k < i :: newDataset[k] == XyToUtm(radars, trig, dataset[k])
      invariant forall k | i <= k < |dataset| :: newDataset[k] == dataset[k]
    {
      var d := newDataset[i];
      var matching := MatchingRadars(radars, d.radar);
      if |matching| == 1 {
        var u := ToUtm(matching[0], trig, d);
        newDataset := newDataset[i := d.(xPos := u.xPos, yPos := u.yPos, xSpeed := u.xSpeed, ySpeed := u.ySpeed)];
      }
    }
  }

  /** One element of `add_utm`: the UTM keys are written when exactly one radar matches. */
  function WithUtm(radars: seq<RadarConfig>, trig: Trig, d: Detection): (r: Detection)
    ensures r == d.(utm := r.utm)
    ensures HasOneRadar(radars, d) ==> r.utm.Some?
    ensures !HasOneRadar(radars, d) ==> r == d
  {
    var matching := MatchingRadars(radars, d.radar);
    if |matching| == 1 then d.(utm := Some(ToUtm(matching[0], trig, d))) else d
  }

  /** One step of `add_utm`: element `i` gets its UTM keys, and joins the result when its radar resolves. */
  lemma UtmStep(radars: seq<RadarConfig>, trig: Trig, original: seq<Detection>, items: seq<Detection>,
                out: seq<Detection>, i: nat)
    requires i < |items| == |original| && items[i] == original[i]
    requires forall k | 0 <= k < i :: items[k] == WithUtm(radars, trig, original[k])
    requires out == Filter(d => HasOneRadar(radars, d), items[..i])
    ensures var e := WithUtm(radars, trig, items[i]);
            var next := items[i := e];
            (forall k | 0 <= k <= i :: next[k] == WithUtm(radars, trig, original[k]))
            && Filter(d => HasOneRadar(radars, d), next[..i + 1])
               == out + (if HasOneRadar(radars, items[i]) then [e] else [])
  {
    var e := WithUtm(radars, trig, items[i]);
    var next := items[i := e];
    assert next[..i + 1] == items[..i] + [e];
    FilterSnoc(d => HasOneRadar(radars, d), items[..i], e);
    assert HasOneRadar(radars, e) == HasOneRadar(radars, items[i]);
  }

  /**
   * `add_utm`: writes the UTM keys into every detection whose radar
   * resolves to exactly one configured radar (the dictionaries are changed
   * in place, so the input list sees the new keys), and returns a fresh
   * list of just those detections, in their original order.
   */
  method AddUtm(radars: seq<RadarConfig>, trig: Trig, dataset: DetectionList)
    returns (newDataset: DetectionList)
    modifies dataset
    ensures fresh(newDataset)
    ensures |dataset.items| == |old(dataset.items)|
    ensures forall i | 0 <= i < |dataset.items| :: dataset.items[i] == WithUtm(radars, trig, old(dataset.items)[i])
    ensures newDataset.items == Filter(d => HasOneRadar(radars, d), dataset.items)
    ensures forall d | d in newDataset.items :: d.utm.Some? && HasOneRadar(radars, d)
  {
    ghost var original := dataset.items;
    var items := dataset.items;
    var out: seq<Detection> := [];
    for i := 0 to |items|
      invariant |items| == |original|
      invariant forall k | 0 <= k < i :: items[k] == WithUtm(radars, trig, original[k])
      invariant forall k | i <= k < |original| :: items[k] == original[k]
      invariant out == Filter(d => HasOneRadar(radars, d), items[..i])
      invariant forall d | d in out :: d.utm.Some?
    {
      var d := items[i];
      var matching := MatchingRadars(radars, d.radar);
      UtmStep(radars, trig, original, items, out, i);
      if |matching| == 1 {
        d := d.(utm := Some(ToUtm(matching[0], trig, d)));
        items := items[i := d];
        out := out + [d];
      } else {
        items := items[i := d];
      }
    }
    assert items[..|items|] == items;
    dataset.items := items;
    newDataset := new DetectionList(out);
  }

  // ---------------------------------------------------------------------
  // Port numbers in radar names

  /** The text that precedes a port number in a radar field. */
  const PortTag := ":origin_port, "

  predicate IsDigit(c: char)
  {
    '0' <= c <= '9'
  }

  /** Whether `:origin_port, ` followed by five digits starts at position `i` of `s`. */
  predicate PortAt(s: string, i: nat)
  {
    i + 19 <= |s| && s[i..i + 14] == PortTag && forall k | i + 14 <= k < i + 19 :: IsDigit(s[k])
  }

  function Pow10(n: nat): nat
  {
    if n == 0 then 1 else 10 * Pow10(n - 1)
  }

  /** The value of one decimal digit. */
  function DigitValue(c: char): (v: nat)
    requires IsDigit(c)
    ensures v < 10
  {
    c as int - '0' as int
  }

  /**
   * The decimal value of a string of digits (Python's `int`), below
   * `10^|ds|`; `DigitsValueConcat` and `DigitsValueLeading` give it place
   * by place.
   */
  function DigitsValue(ds: string): (v: nat)
    requires forall k | 0 <= k < |ds| :: IsDigit(ds[k])
    ensures v < Pow10(|ds|)
  {
    if ds == [] then 0
    else DigitsValue(ds[..|ds| - 1]) * 10 + DigitValue(ds[|ds| - 1])
  }

  /**
   * Positional notation: the digits of `a` followed by those of `b` are
   * worth `a`'s value shifted left by `|b|` places, plus `b`'s value.
   */
  lemma {:induction false} DigitsValueConcat(a: string, b: string)
    requires forall k | 0 <= k < |a| :: IsDigit(a[k])
    requires forall k | 0 <= k < |b| :: IsDigit(b[k])
    ensures forall k | 0 <= k < |a + b| :: IsDigit((a + b)[k])
    ensures DigitsValue(a + b) == DigitsValue(a) * Pow10(|b|) + DigitsValue(b)
  {
    if b == [] {
      assert a + b == a;
    } else {
      var b' := b[..|b| - 1];
      DigitsValueConcat(a, b');
      assert (a + b)[..|a + b| - 1] == a + b';
      assert (a + b)[|a + b| - 1] == b[|b| - 1];
      ShiftOnePlace(DigitsValue(a + b), DigitsValue(a + b'), DigitsValue(a), Pow10(|b'|), Pow10(|b|),
                    DigitsValue(b'), DigitsValue(b), DigitValue(b[|b| - 1]));
    }
  }

  /** One more digit on the right shifts everything before it one place left. */
  lemma ShiftOnePlace(total: int, w: int, x: int, y: int, y': int, z: int, z': int, c: int)
    requires total == w * 10 + c && w == x * y + z
    requires y' == y * 10 && z' == z * 10 + c
    ensures total == x * y' + z'
  {
  }

  /** The leading digit counts `10^(n-1)` times its value, and the other digits count as a number of their own. */
  lemma DigitsValueLeading(ds: string)
    requires ds != [] && forall k | 0 <= k < |ds| :: IsDigit(ds[k])
    ensures DigitsValue(ds) == DigitValue(ds[0]) * Pow10(|ds| - 1) + DigitsValue(ds[1..])
  {
    var head := [ds[0]];
    assert ds == head + ds[1..];
    assert head[..0] == [];
    assert DigitsValue(head) == DigitValue(ds[0]);
    DigitsValueConcat(head, ds[1..]);
  }


  /** The port of the leftmost match of `:origin_port, (\d{5})` at or after position `i`. */
  function SearchPortFrom(s: string, i: nat): (port: Option<nat>)
    ensures port.Some? ==> port.value < 100000
    ensures port.Some? ==> i + 19 <= |s|
    decreases |s| - i
  {
    if i + 19 > |s| then None
    else if PortAt(s, i) then
      assert Pow10(5) == 100000;
      Some(DigitsValue(s[i + 14..i + 19]))
    else SearchPortFrom(s, i + 1)
  }

  /**
   * `re.search(r":origin_port, ([\d]{5})", s)`, converted with `int`: a
   * port exactly when the pattern occurs, and then the five digits of its
   * leftmost occurrence.
   */
  function SearchPort(s: string): (port: Option<nat>)
    ensures port.Some? <==> exists j: nat :: PortAt(s, j)
    ensures port.Some? ==>
      exists j: nat :: PortAt(s, j) && (forall k: nat | k < j :: !PortAt(s, k)) && port.value == DigitsValue(s[j + 14..j + 19])
  {
    SearchPortFromLeftmost(s, 0);
    SearchPortFrom(s, 0)
  }

  /**
   * The search succeeds exactly when the pattern occurs somewhere, and then
   * yields the five digits of its leftmost occurrence.
   */
  lemma {:induction false} SearchPortFromLeftmost(s: string, i: nat)
    ensures SearchPortFrom(s, i).Some? <==> exists j :: i <= j && PortAt(s, j)
    ensures SearchPortFrom(s, i).Some? ==>
      exists j :: i <= j && PortAt(s, j) && (forall k | i <= k < j :: !PortAt(s, k))
                  && SearchPortFrom(s, i).value == DigitsValue(s[j + 14..j + 19])
    decreases |s| - i
  {
    if i + 19 > |s| {
      assert forall j :: i <= j ==> !PortAt(s, j);
    } else if PortAt(s, i) {
    } else {
      SearchPortFromLeftmost(s, i + 1);
      if SearchPortFrom(s, i).Some? {
        var j :| i + 1 <= j && PortAt(s, j) && (forall k | i + 1 <= k < j :: !PortAt(s, k))
                 && SearchPortFrom(s, i + 1).value == DigitsValue(s[j + 14..j + 19]);
        assert forall k | i <= k < j :: !PortAt(s, k);
      }
    }
  }

  /** Position `i` holds the one configured radar on `port`; no other entry listens on it. */
  ghost predicate OnlyOnPort(radars: seq<RadarConfig>, i: int, port: int)
  {
    0 <= i < |radars| && radars[i].ethernetPort == port
    && forall j | 0 <= j < |radars| && radars[j].ethernetPort == port :: j == i
  }

  /**
   * `[r["name"] for r in radars if r["ethernet_port"] == port]`: the names
   * of the radars on `port`, one per radar, so that two radars on the same
   * port give two names even when they share one.
   */
  function NamesWithPort(radars: seq<RadarConfig>, port: int): (names: seq<string>)
    ensures forall n :: n in names <==> exists r :: r in radars && r.ethernetPort == port && r.name == n
    ensures |names| == 1 <==> exists i :: OnlyOnPort(radars, i, port)
    ensures forall i | OnlyOnPort(radars, i, port) :: names == [radars[i].name]
  {
    var p := (c: RadarConfig) => c.ethernetPort == port;
    var onPort := Filter(p, radars);
    FilterSingleton(p, radars);
    assert forall i | OnlyOnPort(radars, i, port) :: OnlyWith(radars, i, p);
    assert |onPort| == 1 ==> exists i :: OnlyOnPort(radars, i, port) by {
      if |onPort| == 1 {
        var i :| 0 <= i < |radars| && OnlyWith(radars, i, p);
        assert OnlyOnPort(radars, i, port);
      }
    }
    var names := RadarNames(onPort);
    assert forall n :: n in names <==> exists r :: r in onPort && r.name == n by {
      forall n ensures n in names <==> exists r :: r in onPort && r.name == n {
        if n in names {
          var k :| 0 <= k < |names| && names[k] == n;
          assert onPort[k] in onPort;
        }
        if r :| r in onPort && r.name == n {
          var k :| 0 <= k < |onPort| && onPort[k] == r;
          assert names[k] == n;
        }
      }
    }
    names
  }

  /**
   * One element of `map_ports_to_radar_names`: a detection whose radar
   * field is not a configured name, but carries a port number that exactly
   * one configured radar listens on, takes that radar's name.
   */
  function RenamedByPort(radars: seq<RadarConfig>, d: Detection): (r: Detection)
    ensures r == d.(radar := r.radar)
    ensures r.radar == d.radar || r.radar in RadarNames(radars)
  {
    if d.radar in RadarNames(radars) then d
    else match SearchPort(d.radar)
      case None => d
      case Some(port) =>
        var matchingName := NamesWithPort(radars, port);
        if |matchingName| == 1 then d.(radar := matchingName[0]) else d
  }

  /**
   * Renaming changes nothing but the radar field; it leaves a known radar
   * name alone; and it changes a detection exactly when its radar field is
   * unknown, contains a port, and that port belongs to exactly one radar,
   * whose name it then takes.
   */
  lemma RenamedByPortChanges(radars: seq<RadarConfig>, d: Detection)
    ensures RenamedByPort(radars, d) == d.(radar := RenamedByPort(radars, d).radar)
    ensures d.radar in RadarNames(radars) ==> RenamedByPort(radars, d) == d
    ensures RenamedByPort(radars, d) != d <==>
      d.radar !in RadarNames(radars) && SearchPort(d.radar).Some?
      && |NamesWithPort(radars, SearchPort(d.radar).value)| == 1
    ensures RenamedByPort(radars, d) != d ==>
      var port := SearchPort(d.radar).value;
      RenamedByPort(radars, d).radar in RadarNames(radars)
      && exists c :: c in radars && c.ethernetPort == port && c.name == RenamedByPort(radars, d).radar
  {
    if d.radar !in RadarNames(radars) && SearchPort(d.radar).Some? {
      var port := SearchPort(d.radar).value;
      var names := NamesWithPort(radars, port);
      if |names| == 1 {
        assert names[0] in names;
        var c :| c in radars && c.ethernetPort == port && c.name == names[0];
        var i :| 0 <= i < |radars| && radars[i] == c;
        assert RadarNames(radars)[i] == names[0];
      }
    }
  }

  /** One step of `map_ports_to_radar_names`: renaming element `i` extends the renamed prefix by one. */
  lemma RenameStep(radars: seq<RadarConfig>, original: seq<Detection>, items: seq<Detection>, i: nat)
    requires |items| == |original| && i < |items|
    requires forall k | 0 <= k < i :: items[k] == RenamedByPort(radars, original[k])
    requires forall k | i <= k < |original| :: items[k] == original[k]
    ensures var next := items[i := RenamedByPort(radars, items[i])];
            (forall k | 0 <= k < i + 1 :: next[k] == RenamedByPort(radars, original[k]))
            && (forall k | i + 1 <= k < |original| :: next[k] == original[k])
  {
  }

  /**
   * `map_ports_to_radar_names`: renames, in place, the detections of the
   * row's `raw` list that report a port instead of a radar name, and
   * returns the same row.
   */
  method MapPortsToRadarNames(radars: seq<RadarConfig>, dataset: DataPoint) returns (same: DataPoint)
    modifies dataset.raw
    ensures same == dataset
    ensures |dataset.raw.items| == |old(dataset.raw.items)|
    ensures forall i | 0 <= i < |dataset.raw.items| ::
      dataset.raw.items[i] == RenamedByPort(radars, old(dataset.raw.items)[i])
  {
    ghost var original := dataset.raw.items;
    var radarNames := RadarNames(radars);
    for i := 0 to |dataset.raw.items|
      invariant |dataset.raw.items| == |original|
      invariant forall k | 0 <= k < i :: dataset.raw.items[k] == RenamedByPort(radars, original[k])
      invariant forall k | i <= k < |original| :: dataset.raw.items[k] == original[k]
    {
      var d := dataset.raw.items[i];
      RenameStep(radars, original, dataset.raw.items, i);
      if d.radar !in radarNames {
        var foundPort := SearchPort(d.radar);
        if foundPort.None? {
          assert dataset.raw.items[i := d] == dataset.raw.items;
          continue;
        } else {
          var port := foundPort.value;
          var matchingName := NamesWithPort(radars, port);
          if |matchingName| == 1 {
            dataset.raw.items := dataset.raw.items[i := d.(radar := matchingName[0])];
          } else {
            assert dataset.raw.items[i := d] == dataset.raw.items;
          }
        }
      } else {
        assert dataset.raw.items[i := d] == dataset.raw.items;
      }
    }
    same := dataset;
  }

  // ---------------------------------------------------------------------
  // Merging the detections of two overlapping radars

  /** `[[d["x_pos"], d["y_pos"]] for d in dataset]`. */
  function Positions(dataset: seq<Detection>): (pts: seq<Vec>)
    ensures |pts| == |dataset|
    ensures forall i | 0 <= i < |dataset| :: pts[i] == Vec(dataset[i].xPos, dataset[i].yPos)
  {
    seq(|dataset|, i requires 0 <= i < |dataset| => Vec(dataset[i].xPos, dataset[i].yPos))
  }

  /** Row-major (C) order on index pairs, the order in which `np.where` reports them. */
  predicate RowMajorBefore(a: (nat, nat), b: (nat, nat))
  {
    a.0 < b.0 || (a.0 == b.0 && a.1 < b.1)
  }

  /**
   * The index pairs `(i', j')` from `(i, j)` on, in row-major order, whose
   * points lie within `tol` of each other: `np.where(D <= tol)` on the
   * distance matrix `D`.
   */
  function PairsWithin(pts1: seq<Vec>, pts2: seq<Vec>, tol: real, dist: (Vec, Vec) -> real, i: nat, j: nat)
    : (ps: seq<(nat, nat)>)
    ensures forall k | 0 <= k < |ps| :: i <= ps[k].0 < |pts1| && ps[k].1 < |pts2|
    decreases |pts1| - i, |pts2| - j
  {
    if i >= |pts1| then []
    else if j >= |pts2| then PairsWithin(pts1, pts2, tol, dist, i + 1, 0)
    else (if dist(pts1[i], pts2[j]) <= tol then [(i, j)] else []) + PairsWithin(pts1, pts2, tol, dist, i, j + 1)
  }

  /** Whether the pair indexes two points within `tol` of each other. */
  predicate Close(pts1: seq<Vec>, pts2: seq<Vec>, tol: real, dist: (Vec, Vec) -> real, pr: (nat, nat))
  {
    pr.0 < |pts1| && pr.1 < |pts2| && dist(pts1[pr.0], pts2[pr.1]) <= tol
  }

  /** The pairs found from `(i, j)` on are exactly the close pairs not before `(i, j)`. */
  lemma {:induction false} PairsWithinMembers(pts1: seq<Vec>, pts2: seq<Vec>, tol: real, dist: (Vec, Vec) -> real, i: nat, j: nat)
    ensures forall pr: (nat, nat) :: pr in PairsWithin(pts1, pts2, tol, dist, i, j) <==>
      !RowMajorBefore(pr, (i, j)) && Close(pts1, pts2, tol, dist, pr)
    decreases |pts1| - i, |pts2| - j
  {
    var ps := PairsWithin(pts1, pts2, tol, dist, i, j);
    if i >= |pts1| {
    } else if j >= |pts2| {
      PairsWithinMembers(pts1, pts2, tol, dist, i + 1, 0);
      assert ps == PairsWithin(pts1, pts2, tol, dist, i + 1, 0);
      forall pr: (nat, nat) ensures pr in ps <==> !RowMajorBefore(pr, (i, j)) && Close(pts1, pts2, tol, dist, pr) {
        if Close(pts1, pts2, tol, dist, pr) {
          assert pr.1 < j;
        }
      }
    } else {
      PairsWithinMembers(pts1, pts2, tol, dist, i, j + 1);
      var rest := PairsWithin(pts1, pts2, tol, dist, i, j + 1);
      var head := if dist(pts1[i], pts2[j]) <= tol then [(i, j)] else [];
      assert ps == head + rest;
      forall pr: (nat, nat) ensures pr in ps <==> !RowMajorBefore(pr, (i, j)) && Close(pts1, pts2, tol, dist, pr) {
        assert pr in ps <==> pr in head || pr in rest;
      }
    }
  }

  /** Each pair comes strictly before every later one in row-major order. */
  predicate StrictlyRowMajor(ps: seq<(nat, nat)>)
  {
    forall k, l | 0 <= k < l < |ps| :: RowMajorBefore(ps[k], ps[l])
  }

  /** The pairs found come strictly in row-major order. */
  lemma {:induction false} PairsWithinOrdered(pts1: seq<Vec>, pts2: seq<Vec>, tol: real, dist: (Vec, Vec) -> real, i: nat, j: nat)
    ensures StrictlyRowMajor(PairsWithin(pts1, pts2, tol, dist, i, j))
    decreases |pts1| - i, |pts2| - j
  {
    var ps := PairsWithin(pts1, pts2, tol, dist, i, j);
    if i >= |pts1| {
    } else if j >= |pts2| {
      PairsWithinOrdered(pts1, pts2, tol, dist, i + 1, 0);
    } else {
      PairsWithinOrdered(pts1, pts2, tol, dist, i, j + 1);
      PairsWithinMembers(pts1, pts2, tol, dist, i, j + 1);
      var rest := PairsWithin(pts1, pts2, tol, dist, i, j + 1);
      var head := if dist(pts1[i], pts2[j]) <= tol then [(i, j)] else [];
      assert ps == head + rest;
      forall k, l | 0 <= k < l < |ps| ensures RowMajorBefore(ps[k], ps[l]) {
        if k < |head| {
          assert ps[k] == (i, j);
          assert ps[l] == rest[l - |head|];
          assert ps[l] in rest;
          assert !RowMajorBefore(ps[l], (i, j + 1));
        } else {
          assert ps[k] == rest[k - |head|] && ps[l] == rest[l - |head|];
        }
      }
    }
  }

  /** The first and second components of a sequence of pairs. */
  function Unzip(ps: seq<(nat, nat)>): (r: (seq<nat>, seq<nat>))
    ensures |r.0| == |ps| && |r.1| == |ps|
    ensures forall k | 0 <= k < |ps| :: r.0[k] == ps[k].0 && r.1[k] == ps[k].1
  {
    (seq(|ps|, k requires 0 <= k < |ps| => ps[k].0), seq(|ps|, k requires 0 <= k < |ps| => ps[k].1))
  }

  /**
   * `find_same_measurements`: two parallel index lists `(rows, cols)` of
   * the point pairs within `tol` of each other, two empty lists when either
   * side has no points.
   */
  function FindSameMeasurements(pts1: seq<Vec>, pts2: seq<Vec>, tol: real, dist: (Vec, Vec) -> real)
    : (common: (seq<nat>, seq<nat>))
    ensures |common.0| == |common.1|
    ensures |pts1| == 0 || |pts2| == 0 ==> common == ([], [])
  {
    if |pts1| != 0 && |pts2| != 0 then Unzip(PairsWithin(pts1, pts2, tol, dist, 0, 0))
    else ([], [])
  }

  /** The pair at position `k` of the two parallel index lists. */
  function PairAt(common: (seq<nat>, seq<nat>), k: nat): (nat, nat)
    requires k < |common.0| && k < |common.1|
  {
    (common.0[k], common.1[k])
  }

  /** The two parallel index lists as one list of pairs. */
  function Unzipped(common: (seq<nat>, seq<nat>)): (ps: seq<(nat, nat)>)
    requires |common.0| == |common.1|
    ensures |ps| == |common.0|
    ensures forall k | 0 <= k < |ps| :: ps[k] == (common.0[k], common.1[k])
  {
    seq(|common.0|, k requires 0 <= k < |common.0| => (common.0[k], common.1[k]))
  }

  /** Whether the pair `pr` occurs in the two parallel index lists. */
  predicate Reported(common: (seq<nat>, seq<nat>), pr: (nat, nat))
  {
    exists k :: 0 <= k < |common.0| && k < |common.1| && PairAt(common, k) == pr
  }

  /**
   * The pair `(i, j)` is reported exactly when both indices are in range
   * and the points are within `tol`; pairs come in strict row-major order,
   * so none is reported twice.
   */
  lemma FindSameMeasurementsExact(pts1: seq<Vec>, pts2: seq<Vec>, tol: real, dist: (Vec, Vec) -> real)
    ensures forall pr: (nat, nat) ::
      Reported(FindSameMeasurements(pts1, pts2, tol, dist), pr) <==> Close(pts1, pts2, tol, dist, pr)
    ensures StrictlyRowMajor(Unzipped(FindSameMeasurements(pts1, pts2, tol, dist)))
  {
    var c := FindSameMeasurements(pts1, pts2, tol, dist);
    if |pts1| != 0 && |pts2| != 0 {
      var ps := PairsWithin(pts1, pts2, tol, dist, 0, 0);
      assert c == Unzip(ps);
      assert forall k | 0 <= k < |ps| :: PairAt(c, k) == ps[k];
      assert Unzipped(c) == ps;
      PairsWithinMembers(pts1, pts2, tol, dist, 0, 0);
      PairsWithinOrdered(pts1, pts2, tol, dist, 0, 0);
      forall pr: (nat, nat) ensures Reported(c, pr) <==> Close(pts1, pts2, tol, dist, pr) {
        if Reported(c, pr) {
          var k :| 0 <= k < |c.0| && k < |c.1| && PairAt(c, k) == pr;
          assert ps[k] in ps;
        }
        if Close(pts1, pts2, tol, dist, pr) {
          assert pr in ps;
          var k :| 0 <= k < |ps| && ps[k] == pr;
          assert PairAt(c, k) == pr;
        }
      }
    } else {
      forall pr: (nat, nat) ensures !Close(pts1, pts2, tol, dist, pr) {
      }
    }
  }

  /**
   * One merged detection: a copy of the side-1 detection with the id
   * `"-1"`, the radar tag `"A1"`, and position and speed averaged over the
   * pair.
   */
  function Merged(d1: Detection, d2: Detection): (m: Detection)
    ensures m == d1.(id := "-1", radar := "A1", xPos := m.xPos, yPos := m.yPos, xSpeed := m.xSpeed, ySpeed := m.ySpeed)
    ensures m.xPos - d1.xPos == d2.xPos - m.xPos && m.yPos - d1.yPos == d2.yPos - m.yPos
    ensures m.xSpeed - d1.xSpeed == d2.xSpeed - m.xSpeed && m.ySpeed - d1.ySpeed == d2.ySpeed - m.ySpeed
  {
    d1.(id := "-1", radar := "A1",
        xPos := 0.5 * (d1.xPos + d2.xPos),
        yPos := 0.5 * (d1.yPos + d2.yPos),
        xSpeed := 0.5 * (d1.xSpeed + d2.xSpeed),
        ySpeed := 0.5 * (d1.ySpeed + d2.ySpeed))
  }

  /** Whether every index in the two lists of `common` is in range. */
  predicate PairsInRange(common: (seq<nat>, seq<nat>), n1: nat, n2: nat)
  {
    |common.0| == |common.1|
    && (forall k | 0 <= k < |common.0| :: common.0[k] < n1)
    && (forall k | 0 <= k < |common.1| :: common.1[k] < n2)
  }

  /** The merged detection of each reported pair, in the order of the pairs. */
  function MergedPairs(dataset1: seq<Detection>, dataset2: seq<Detection>, common: (seq<nat>, seq<nat>))
    : (r: seq<Detection>)
    requires PairsInRange(common, |dataset1|, |dataset2|)
    ensures |r| == |common.0|
  {
    seq(|common.0|, k requires 0 <= k < |common.0| => Merged(dataset1[common.0[k]], dataset2[common.1[k]]))
  }

  lemma FindSameInRange(dataset1: seq<Detection>, dataset2: seq<Detection>, tol: real, dist: (Vec, Vec) -> real)
    ensures PairsInRange(FindSameMeasurements(Positions(dataset1), Positions(dataset2), tol, dist), |dataset1|, |dataset2|)
  {
    var c := FindSameMeasurements(Positions(dataset1), Positions(dataset2), tol, dist);
    FindSameMeasurementsExact(Positions(dataset1), Positions(dataset2), tol, dist);
    forall k | 0 <= k < |c.0| ensures c.0[k] < |dataset1| && c.1[k] < |dataset2| {
      assert Reported(c, PairAt(c, k));
    }
  }

  /**
   * What `get_merged_dataset` returns for the reported pairs `common`: the
   * detections of each side in no pair, listed by `order1` and `order2`,
   * then the merged detection of every pair.
   */
  ghost predicate MergeOutput(dataset1: seq<Detection>, dataset2: seq<Detection>, common: (seq<nat>, seq<nat>),
                              out: seq<Detection>, order1: seq<nat>, order2: seq<nat>)
  {
    PairsInRange(common, |dataset1|, |dataset2|)
    && IsEnumeration(order1, IndicesNotIn(|dataset1|, common.0))
    && IsEnumeration(order2, IndicesNotIn(|dataset2|, common.1))
    && (forall k | 0 <= k < |order1| :: order1[k] < |dataset1|)
    && (forall k | 0 <= k < |order2| :: order2[k] < |dataset2|)
    && out == Select(dataset1, order1) + Select(dataset2, order2) + MergedPairs(dataset1, dataset2, common)
  }

  /**
   * One pass-through loop of `get_merged_dataset`: the detections at the
   * indices of `indices`, appended in the order the set is iterated, which
   * is returned as `order`.
   */
  method PassThrough(dataset: seq<Detection>, indices: set<nat>) returns (out: seq<Detection>, ghost order: seq<nat>)
    requires forall i | i in indices :: i < |dataset|
    ensures IsEnumeration(order, indices)
    ensures forall k | 0 <= k < |order| :: order[k] < |dataset|
    ensures out == Select(dataset, order)
  {
    out, order := [], [];
    var todo := indices;
    while todo != {}
      invariant todo <= indices
      invariant IsEnumeration(order, indices - todo)
      invariant forall k | 0 <= k < |order| :: order[k] < |dataset|
      invariant out == Select(dataset, order)
      decreases todo
    {
      var i :| i in todo;
      out := out + [dataset[i]];
      order := order + [i];
      todo := todo - {i};
    }
  }

  /**
   * `get_merged_dataset`: the side-1 detections in no pair, then the
   * side-2 detections in no pair (each group in the iteration order of a
   * Python set, left open here as some enumeration `order1`, `order2`),
   * then one merged detection per pair, in row-major pair order.
   */
  method GetMergedDataset(dataset1: seq<Detection>, dataset2: seq<Detection>, tol: real, dist: (Vec, Vec) -> real)
    returns (out: seq<Detection>, ghost order1: seq<nat>, ghost order2: seq<nat>)
    ensures MergeOutput(dataset1, dataset2, FindSameMeasurements(Positions(dataset1), Positions(dataset2), tol, dist),
                        out, order1, order2)
  {
    var pts1 := Positions(dataset1);
    var pts2 := Positions(dataset2);
    var common := FindSameMeasurements(pts1, pts2, tol, dist);
    FindSameInRange(dataset1, dataset2, tol, dist);
    var unique1 := IndicesNotIn(|pts1|, common.0);
    var unique2 := IndicesNotIn(|pts2|, common.1);

    var out1, out2;
    out1, order1 := PassThrough(dataset1, unique1);
    out2, order2 := PassThrough(dataset2, unique2);
    out := out1 + out2;
    ghost var unmatched := out;
    for i := 0 to |common.0|
      invariant out == unmatched + MergedPairs(dataset1, dataset2, common)[..i]
    {
      var matched := Merged(dataset1[common.0[i]], dataset2[common.1[i]]);
      out := out + [matched];
    }
  }

  /**
   * The merged list holds one detection per side-1 index in no pair, one
   * per side-2 index in no pair, and one per pair.
   */
  lemma MergedSize(dataset1: seq<Detection>, dataset2: seq<Detection>, common: (seq<nat>, seq<nat>),
                   out: seq<Detection>, order1: seq<nat>, order2: seq<nat>)
    requires MergeOutput(dataset1, dataset2, common, out, order1, order2)
    ensures |out| == |IndicesNotIn(|dataset1|, common.0)| + |IndicesNotIn(|dataset2|, common.1)| + |common.0|
  {
    EnumerationSize(order1, IndicesNotIn(|dataset1|, common.0));
    EnumerationSize(order2, IndicesNotIn(|dataset2|, common.1));
  }

  /**
   * Every detection of the merged list after the unmatched ones is the
   * merge of a pair within `tol`: positions and speeds are the pair's
   * means, the id is `"-1"`, the radar `"A1"`, and the vehicle class and
   * UTM keys are the side-1 detection's. No index of a pair is among the
   * unmatched detections passed through.
   */
  lemma MergedPairsAreMeans(dataset1: seq<Detection>, dataset2: seq<Detection>, tol: real, dist: (Vec, Vec) -> real,
                            out: seq<Detection>, order1: seq<nat>, order2: seq<nat>, k: nat)
    requires MergeOutput(dataset1, dataset2, FindSameMeasurements(Positions(dataset1), Positions(dataset2), tol, dist),
                         out, order1, order2)
    requires k < |FindSameMeasurements(Positions(dataset1), Positions(dataset2), tol, dist).0|
    ensures var c := FindSameMeasurements(Positions(dataset1), Positions(dataset2), tol, dist);
      var a, b, m := dataset1[c.0[k]], dataset2[c.1[k]], out[|order1| + |order2| + k];
      dist(Vec(a.xPos, a.yPos), Vec(b.xPos, b.yPos)) <= tol
      && m.id == "-1" && m.radar == "A1"
      && m.xPos == (a.xPos + b.xPos) / 2.0 && m.yPos == (a.yPos + b.yPos) / 2.0
      && m.xSpeed == (a.xSpeed + b.xSpeed) / 2.0 && m.ySpeed == (a.ySpeed + b.ySpeed) / 2.0
      && m.vehicleClass == a.vehicleClass && m.utm == a.utm
      && c.0[k] !in order1 && c.1[k] !in order2
  {
    var pts1, pts2 := Positions(dataset1), Positions(dataset2);
    var c := FindSameMeasurements(pts1, pts2, tol, dist);
    FindSameMeasurementsExact(pts1, pts2, tol, dist);
    assert Reported(c, PairAt(c, k));
    assert c.0[k] in c.0 && c.1[k] in c.1;
  }

  /** With no detections on one side nothing is merged: the output is a permutation of the other side. */
  lemma MergeWithEmptySide(dataset1: seq<Detection>, dataset2: seq<Detection>, tol: real, dist: (Vec, Vec) -> real,
                           out: seq<Detection>, order1: seq<nat>, order2: seq<nat>)
    requires MergeOutput(dataset1, dataset2, FindSameMeasurements(Positions(dataset1), Positions(dataset2), tol, dist),
                         out, order1, order2)
    requires |dataset1| == 0 || |dataset2| == 0
    ensures multiset(out) == multiset(dataset1) + multiset(dataset2)
  {
    var c := FindSameMeasurements(Positions(dataset1), Positions(dataset2), tol, dist);
    assert c == ([], []);
    assert IndicesNotIn(|dataset1|, c.0) == IndexSet(|dataset1|);
    assert IndicesNotIn(|dataset2|, c.1) == IndexSet(|dataset2|);
    SelectAllIsPermutation(dataset1, order1);
    SelectAllIsPermutation(dataset2, order2);
    assert out == Select(dataset1, order1) + Select(dataset2, order2);
  }
}
