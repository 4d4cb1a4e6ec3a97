/**
 * The comb geometry (`comb_mapper.py`): actuator positions from the
 * configuration, the comb's bounding rectangle in unit coordinates, and the
 * nearest-actuator lookup for a detected position.
 *
 * The homography fitted by `cv2.findHomography` and applied by
 * `cv2.perspectiveTransform` is not modelled: it is an arbitrary function
 * from pixel points to comb points, supplied with the configuration.
 */
module CombMapper {
  import opened Wrappers
  import opened Geometry

  /** One entry of `config["actuators"]`. */
  datatype ActuatorConfig = ActuatorConfig(x: real, y: real)

  /**
   * The comb configuration: actuator entries in file order and the
   * homography's pixel and unit correspondences (`config["homography"]`).
   */
  datatype MapperConfig = MapperConfig(actuators: seq<ActuatorConfig>, pixels: seq<Point>, units: seq<Point>)

  /** `reshape(4, 2)` raised: the homography needs exactly four correspondences. */
  datatype MapperError = NotFourCorners

  /** A loaded mapper: actuator positions, the four unit corners, and the fitted homography. */
  datatype Mapper = Mapper(actuators: seq<Point>, unitCorners: seq<Point>, homography: Point -> Point)

  /** Every loaded mapper has four unit corners. */
  predicate Valid(m: Mapper)
  {
    |m.unitCorners| == 4
  }

  /**
   * `CombMapper.__init__`; `findHomography` stands for `cv2.findHomography`
   * applied to the pixel and unit corners.
   */
  function FromConfig(cfg: MapperConfig, findHomography: (seq<Point>, seq<Point>) -> (Point -> Point)): (r: Result<Mapper, MapperError>)
    ensures r.Success? <==> |cfg.pixels| == 4 && |cfg.units| == 4
    ensures r.Success? ==> Valid(r.value) && r.value.unitCorners == cfg.units
    ensures r.Success? ==> |r.value.actuators| == |cfg.actuators|
    ensures r.Success? ==> forall i :: 0 <= i < |cfg.actuators| ==> r.value.actuators[i] == Point(cfg.actuators[i].x, cfg.actuators[i].y)
  {
    if |cfg.pixels| != 4 || |cfg.units| != 4 then Failure(NotFourCorners)
    else
      var positions := seq(|cfg.actuators|, i requires 0 <= i < |cfg.actuators| => Point(cfg.actuators[i].x, cfg.actuators[i].y));
      Success(Mapper(positions, cfg.units, findHomography(cfg.pixels, cfg.units)))
  }

  /** `get_actuator_count` */
  function GetActuatorCount(m: Mapper): nat
  {
    |m.actuators|
  }

  /** A loaded mapper has one actuator per configured entry. */
  lemma {:induction false} ActuatorCountIsConfigured(cfg: MapperConfig, findHomography: (seq<Point>, seq<Point>) -> (Point -> Point))
    requires FromConfig(cfg, findHomography).Success?
    ensures GetActuatorCount(FromConfig(cfg, findHomography).value) == |cfg.actuators|
  {
  }

  function MinOf(a: real, b: real): real
  {
    if a <= b then a else b
  }

  function MaxOf(a: real, b: real): real
  {
    if a >= b then a else b
  }

  /** The comb's rectangle `(x0, y0, x1, y1)`. */
  datatype Rectangle = Rectangle(x0: real, y0: real, x1: real, y1: real)

  /** `get_comb_rectangle`: per axis, the smallest and largest unit-corner coordinate. */
  function GetCombRectangle(m: Mapper): (r: Rectangle)
    requires Valid(m)
    ensures r.x0 <= r.x1 && r.y0 <= r.y1
    ensures forall i :: 0 <= i < 4 ==> r.x0 <= m.unitCorners[i].x <= r.x1 && r.y0 <= m.unitCorners[i].y <= r.y1
    ensures exists i :: 0 <= i < 4 && m.unitCorners[i].x == r.x0
    ensures exists i :: 0 <= i < 4 && m.unitCorners[i].y == r.y0
    ensures exists i :: 0 <= i < 4 && m.unitCorners[i].x == r.x1
    ensures exists i :: 0 <= i < 4 && m.unitCorners[i].y == r.y1
  {
    var c := m.unitCorners;
    Rectangle(
      MinOf(MinOf(c[0].x, c[1].x), MinOf(c[2].x, c[3].x)),
      MinOf(MinOf(c[0].y, c[1].y), MinOf(c[2].y, c[3].y)),
      MaxOf(MaxOf(c[0].x, c[1].x), MaxOf(c[2].x, c[3].x)),
      MaxOf(MaxOf(c[0].y, c[1].y), MaxOf(c[2].y, c[3].y)))
  }

  /** The result of the actuator search: the index found (if any) and its squared distance. */
  datatype Nearest = Nearest(index: Option<nat>, distance: Dist)

  /**
   * `n` is the nearest actuator to `p`: the first index whose distance is
   * minimal, with that distance; `(None, infinity)` when there are no actuators.
   */
  predicate IsNearest(actuators: seq<Point>, p: Point, n: Nearest)
  {
    if |actuators| == 0 then n == Nearest(None, Infinite)
    else
      && n.index.Some? && n.index.value < |actuators|
      && n.distance == Finite(SqDist(actuators[n.index.value], p))
      && (forall j :: 0 <= j < |actuators| ==> SqDist(actuators[n.index.value], p) <= SqDist(actuators[j], p))
      && (forall j :: 0 <= j < n.index.value ==> SqDist(actuators[n.index.value], p) < SqDist(actuators[j], p))
  }

  /** There is only one nearest actuator in this sense: minimal distance with the lowest index. */
  lemma {:induction false} NearestIsUnique(actuators: seq<Point>, p: Point, n1: Nearest, n2: Nearest)
    requires IsNearest(actuators, p, n1) && IsNearest(actuators, p, n2)
    ensures n1 == n2
  {
    if |actuators| > 0 {
      var i, j := n1.index.value, n2.index.value;
      if i != j {
        // Each index would have to be strictly nearer than the other.
        assert false;
      }
    }
  }

  /**
   * `map_to_comb(x, y, find_sensor)`: the comb point of the pixel, and, when
   * asked for, the nearest actuator. Distances are taken from the pixel
   * `(x, y)` as given, not from the transformed point.
   */
  method MapToComb(m: Mapper, x: real, y: real, findSensor: bool) returns (xy: Point, sensor: Option<Nearest>)
    ensures xy == m.homography(Point(x, y))
    ensures !findSensor ==> sensor == None
    ensures findSensor ==> sensor.Some? && IsNearest(m.actuators, Point(x, y), sensor.value)
  {
    xy := m.homography(Point(x, y));
    if !findSensor {
      return xy, None;
    }
    var p := Point(x, y);
    var minDistance: Dist := Infinite;
    var sensorIndex: Option<nat> := None;
    var i := 0;
    while i < |m.actuators|
      invariant 0 <= i <= |m.actuators|
      invariant i == 0 ==> minDistance == Infinite && sensorIndex == None
      invariant i > 0 ==> sensorIndex.Some? && sensorIndex.value < i
      invariant i > 0 ==> minDistance == Finite(SqDist(m.actuators[sensorIndex.value], p))
      invariant i > 0 ==> forall j :: 0 <= j < i ==> minDistance.sq <= SqDist(m.actuators[j], p)
      invariant i > 0 ==> forall j :: 0 <= j < sensorIndex.value ==> minDistance.sq < SqDist(m.actuators[j], p)
    {
      var distance := Finite(SqDist(m.actuators[i], p));
      if Less(distance, minDistance) {
        minDistance := distance;
        sensorIndex := Some(i);
      }
      i := i + 1;
    }
    sensor := Some(Nearest(sensorIndex, minDistance));
  }
}
