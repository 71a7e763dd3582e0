/**
 * The records that flow through the pipeline: radar configurations,
 * detections (one JSON object of a data row's `raw` list) and data rows.
 */
module Detections {
  import opened Wrappers

  /** One configured radar unit: its name, installation azimuth in degrees, UTM origin and hardware port. */
  datatype RadarConfig = RadarConfig(
    name: string,
    azimuth: real,
    easting: real,
    northing: real,
    ethernetPort: int)

  /** The global-frame keys `x_pos_utm`, `y_pos_utm`, `x_speed_utm`, `y_speed_utm` of a detection. */
  datatype Utm = Utm(xPos: real, yPos: real, xSpeed: real, ySpeed: real)

  /**
   * One detection: the radar-assigned `id` (as text), the `radar` name,
   * `vehicle_class`, radar-local position and speed, and the UTM keys once
   * they have been added.
   */
  datatype Detection = Detection(
    id: string,
    radar: string,
    vehicleClass: string,
    xPos: real,
    yPos: real,
    xSpeed: real,
    ySpeed: real,
    utm: Option<Utm>)

  /** A Python list of detections that callers share and that is changed in place. */
  class DetectionList {
    var items: seq<Detection>

    constructor (items: seq<Detection>)
      ensures this.items == items
    {
      this.items := items;
    }
  }

  /** One data row: its `timestamp` and its `raw` list of detections. */
  datatype DataPoint = DataPoint(timestamp: int, raw: DetectionList)
}
