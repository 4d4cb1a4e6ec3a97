/**
 * Clustering of single waggle detections into dances (`dance_detector.py`).
 * A detector keeps an ordered list of open dances; each processed waggle
 * purges stale dances, joins the first dance it is close to (or opens a new
 * one) and reports its position once that dance is long enough.
 *
 * Timestamps are integer microseconds, the resolution of Python's
 * `datetime`, so the seconds-valued gap `min_delay` is a microsecond count.
 */
module DanceDetector {
  import opened Wrappers
  import opened Geometry
  import opened Deletion

  /** One detection: pixel position, optional waggle angle, time of the waggle. */
  datatype Waggle = Waggle(x: real, y: real, angle: Option<real>, timestamp: int)

  function Position(w: Waggle): Point
  {
    Point(w.x, w.y)
  }

  /**
   * A dance as the three parallel member lists the Python class keeps, and the
   * number of times it has triggered.
   */
  datatype Dance = Dance(coords: seq<Point>, angles: seq<Option<real>>, timestamps: seq<int>, triggered: nat)

  /** The three member lists have one entry per member. */
  predicate WellFormed(d: Dance)
  {
    |d.coords| == |d.angles| == |d.timestamps|
  }

  /** A dance on the detector's open list: well formed and never empty. */
  predicate IsOpen(d: Dance)
  {
    WellFormed(d) && |d.timestamps| > 0
  }

  /** `Dance()`: no members, never triggered. */
  function NewDance(): (r: Dance)
    ensures WellFormed(r) && Len(r) == 0 && r.triggered == 0
  {
    Dance([], [], [], 0)
  }

  /** `len(dance)` counts timestamps. */
  function Len(d: Dance): nat
  {
    |d.timestamps|
  }

  function LastTimestamp(d: Dance): int
    requires |d.timestamps| > 0
  {
    d.timestamps[|d.timestamps| - 1]
  }

  /** `Dance.append`: the waggle becomes the newest member of all three lists. */
  function Append(d: Dance, w: Waggle): (r: Dance)
    ensures WellFormed(d) ==> IsOpen(r)
    ensures Len(r) == Len(d) + 1 && LastTimestamp(r) == w.timestamp
    ensures |r.coords| == |d.coords| + 1 && |r.angles| == |d.angles| + 1
    ensures r.coords[..|d.coords|] == d.coords && r.coords[|d.coords|] == Position(w)
    ensures r.angles[..|d.angles|] == d.angles && r.angles[|d.angles|] == w.angle
    ensures |r.timestamps| == |d.timestamps| + 1 && r.timestamps[..|d.timestamps|] == d.timestamps
    ensures r.triggered == d.triggered
  {
    Dance(d.coords + [Position(w)], d.angles + [w.angle], d.timestamps + [w.timestamp], d.triggered)
  }

  /** `Dance.trigger`: counts one more trigger and leaves the members alone. */
  function Trigger(d: Dance): (r: Dance)
    ensures r.triggered == d.triggered + 1
    ensures r.coords == d.coords && r.angles == d.angles && r.timestamps == d.timestamps
  {
    d.(triggered := d.triggered + 1)
  }

  /**
   * `Dance.get_min_distance` on squared distances: the smallest distance from
   * `p` to a member, infinite for a dance without members.
   */
  function MinSqDistance(coords: seq<Point>, p: Point): (r: Dist)
    ensures r.Infinite? <==> |coords| == 0
    ensures r.Finite? ==> exists i :: 0 <= i < |coords| && r.sq == SqDist(coords[i], p)
    ensures r.Finite? ==> forall i :: 0 <= i < |coords| ==> r.sq <= SqDist(coords[i], p)
    decreases |coords|
  {
    if |coords| == 0 then Infinite
    else
      var rest := MinSqDistance(coords[..|coords| - 1], p);
      Min(Finite(SqDist(coords[|coords| - 1], p)), rest)
  }

  /** The minimum distance is within the radius exactly when some member is. */
  lemma {:induction false} NearIffSomeMemberWithin(coords: seq<Point>, p: Point, radius: real)
    ensures Within(MinSqDistance(coords, p), radius)
        <==> exists i :: 0 <= i < |coords| && Within(Finite(SqDist(coords[i], p)), radius)
  {
    var r := MinSqDistance(coords, p);
    if Within(r, radius) {
      var i :| 0 <= i < |coords| && r.sq == SqDist(coords[i], p);
      assert Within(Finite(SqDist(coords[i], p)), radius);
    }
  }

  /**
   * The detector: thresholds and the open dances in creation order.
   * `minDistance` is a pixel radius, `minDelay` the largest allowed gap.
   */
  datatype Detector = Detector(minDistance: real, minDelay: int, minWaggles: int, openDances: seq<Dance>)

  const DefaultMinDistance: real := 200.0
  /** 5.0 seconds. */
  const DefaultMinDelay: int := 5_000_000
  const DefaultMinWaggles: int := 3

  /** `DanceDetector(...)`: the given thresholds and no open dance. */
  function NewDetector(minDistance: real, minDelay: int, minWaggles: int): (r: Detector)
    ensures Valid(r) && |r.openDances| == 0
    ensures r.minDistance == minDistance && r.minDelay == minDelay && r.minWaggles == minWaggles
  {
    Detector(minDistance, minDelay, minWaggles, [])
  }

  /** Every dance of the list is well formed and non-empty. */
  predicate AllOpen(dances: seq<Dance>)
  {
    forall i :: 0 <= i < |dances| ==> IsOpen(dances[i])
  }

  /** The detector's invariant: every open dance is well formed and non-empty. */
  predicate Valid(det: Detector)
  {
    AllOpen(det.openDances)
  }

  /** Deleting dances from a list of open dances leaves a list of open dances. */
  lemma {:induction false} DeleteKeepsOpen(dances: seq<Dance>, stale: seq<nat>)
    requires AllOpen(dances) && DeletableFrom(dances, stale)
    ensures AllOpen(DeleteInReverse(dances, stale))
  {
    DeleteInReverseIsWithout(dances, stale);
    var kept := DeleteInReverse(dances, stale);
    forall i | 0 <= i < |kept|
      ensures IsOpen(kept[i])
    {
      assert kept[i] in dances;
    }
  }

  /** The dance at `i` is purged: the waggle is too late for it, or earlier than its last member. */
  predicate StaleAt(det: Detector, w: Waggle, i: nat)
    requires Valid(det) && i < |det.openDances|
  {
    var offset := w.timestamp - LastTimestamp(det.openDances[i]);
    offset > det.minDelay || offset < 0
  }

  /** Some member of the dance at `i` lies within `minDistance` of the waggle. */
  predicate NearAt(det: Detector, w: Waggle, i: nat)
    requires i < |det.openDances|
  {
    Within(MinSqDistance(det.openDances[i].coords, Position(w)), det.minDistance)
  }

  /** The dance at `i` would take the waggle if the scan reached it. */
  predicate AcceptsAt(det: Detector, w: Waggle, i: nat)
    requires Valid(det) && i < |det.openDances|
  {
    !StaleAt(det, w, i) && NearAt(det, w, i)
  }

  /** What the loop over the open dances found: the stale indices, and the dance that took the waggle. */
  datatype Scan = Scan(stale: seq<nat>, matched: Option<nat>)

  /** How far the scan got: the matched index, or the whole list. */
  function Limit(det: Detector, s: Scan): nat
  {
    if s.matched.Some? then s.matched.value else |det.openDances|
  }

  /** The loop of `DanceDetector.process` from index `i` on, `stale` holding the indices flagged so far. */
  function ScanFrom(det: Detector, w: Waggle, i: nat, stale: seq<nat>): (r: Scan)
    requires Valid(det) && i <= |det.openDances|
    requires StrictlyIncreasing(stale) && forall a :: 0 <= a < |stale| ==> stale[a] < i
    ensures r.matched.Some? ==> i <= r.matched.value < |det.openDances| && AcceptsAt(det, w, r.matched.value)
    ensures r.matched.Some? ==> forall j :: i <= j < r.matched.value ==> !AcceptsAt(det, w, j)
    ensures r.matched.None? ==> forall j :: i <= j < |det.openDances| ==> !AcceptsAt(det, w, j)
    ensures StrictlyIncreasing(r.stale) && forall a :: 0 <= a < |r.stale| ==> r.stale[a] < Limit(det, r)
    ensures forall k: nat :: k in r.stale <==> (k in stale || (i <= k < Limit(det, r) && StaleAt(det, w, k)))
    decreases |det.openDances| - i
  {
    if i == |det.openDances| then Scan(stale, None)
    else if StaleAt(det, w, i) then IncreasingSnoc(stale, i); ScanFrom(det, w, i + 1, stale + [i])
    else if !NearAt(det, w, i) then ScanFrom(det, w, i + 1, stale)
    else Scan(stale, Some(i))
  }

  /** The matched dance after taking the waggle: appended to, and triggered if it is now long enough. */
  function Grow(det: Detector, d: Dance, w: Waggle): (r: Dance)
    ensures r.coords == Append(d, w).coords && r.angles == Append(d, w).angles
    ensures r.timestamps == Append(d, w).timestamps
    ensures r.triggered == d.triggered + (if Fires(det, d) then 1 else 0)
  {
    var grown := Append(d, w);
    if Len(grown) >= det.minWaggles then Trigger(grown) else grown
  }

  /** The dance reaches `min_waggles` members with this waggle. */
  predicate Fires(det: Detector, d: Dance)
  {
    Len(d) + 1 >= det.minWaggles
  }

  /**
   * `DanceDetector.process`: the new detector and the list of emitted positions.
   */
  function Process(det: Detector, w: Waggle): (r: (Detector, seq<Point>))
    requires Valid(det)
    ensures Valid(r.0)
    ensures r.0.minDistance == det.minDistance && r.0.minDelay == det.minDelay && r.0.minWaggles == det.minWaggles
    ensures |r.1| <= 1 && forall p :: p in r.1 ==> p == Position(w)
  {
    var scan := ScanFrom(det, w, 0, []);
    match scan.matched
    case Some(m) =>
      var dances := det.openDances[m := Grow(det, det.openDances[m], w)];
      DeleteKeepsOpen(dances, scan.stale);
      (det.(openDances := DeleteInReverse(dances, scan.stale)),
       if Fires(det, det.openDances[m]) then [Position(w)] else [])
    case None =>
      DeleteKeepsOpen(det.openDances, scan.stale);
      (det.(openDances := DeleteInReverse(det.openDances, scan.stale) + [Append(NewDance(), w)]), [])
  }

  /** The indices below `limit` whose dances are stale for `w`. */
  function StaleBefore(det: Detector, w: Waggle, limit: nat): set<nat>
    requires Valid(det) && limit <= |det.openDances|
  {
    set k: nat | k < limit && StaleAt(det, w, k)
  }

  /** `m` is the first open dance that accepts the waggle. */
  predicate FirstAccepting(det: Detector, w: Waggle, m: nat)
    requires Valid(det)
  {
    m < |det.openDances| && AcceptsAt(det, w, m) && forall j :: 0 <= j < m ==> !AcceptsAt(det, w, j)
  }

  /** No open dance accepts the waggle. */
  predicate NoneAccepts(det: Detector, w: Waggle)
    requires Valid(det)
  {
    forall j :: 0 <= j < |det.openDances| ==> !AcceptsAt(det, w, j)
  }

  /** There is at most one first accepting dance. */
  lemma {:induction false} FirstAcceptingUnique(det: Detector, w: Waggle, m1: nat, m2: nat)
    requires Valid(det) && FirstAccepting(det, w, m1) && FirstAccepting(det, w, m2)
    ensures m1 == m2
  {
  }

  /** The scan stops exactly at the first accepting dance. */
  lemma {:induction false} ScanFindsFirstAccepting(det: Detector, w: Waggle)
    requires Valid(det)
    ensures var s := ScanFrom(det, w, 0, []);
      && (s.matched.Some? ==> FirstAccepting(det, w, s.matched.value))
      && (s.matched.None? ==> NoneAccepts(det, w))
  {
  }

  /** The scan flags exactly the stale dances before the one it stops at. */
  lemma {:induction false} ScanFlagsStaleBefore(det: Detector, w: Waggle)
    requires Valid(det)
    ensures var s := ScanFrom(det, w, 0, []);
      Elems(s.stale) == StaleBefore(det, w, Limit(det, s))
  {
  }

  /**
   * When dance `m` is the first to accept the waggle, it takes the waggle, the
   * stale dances before it disappear, everything else keeps its place, and a
   * position is emitted exactly when `m` reaches `minWaggles`.
   */
  lemma {:induction false} ProcessJoinsFirstAccepting(det: Detector, w: Waggle, m: nat)
    requires Valid(det) && FirstAccepting(det, w, m)
    ensures Process(det, w).0.openDances
         == Without(det.openDances[m := Grow(det, det.openDances[m], w)], StaleBefore(det, w, m))
    ensures Process(det, w).1 == if Len(det.openDances[m]) + 1 >= det.minWaggles then [Position(w)] else []
  {
    ScanFindsFirstAccepting(det, w);
    ScanFlagsStaleBefore(det, w);
    var s := ScanFrom(det, w, 0, []);
    if s.matched.None? {
      assert false;
    }
    FirstAcceptingUnique(det, w, m, s.matched.value);
    var dances := det.openDances[m := Grow(det, det.openDances[m], w)];
    DeleteInReverseIsWithout(dances, s.stale);
  }

  /** When no dance accepts the waggle, the stale dances disappear and one new dance holding only the waggle is appended last. */
  lemma {:induction false} ProcessOpensNewDance(det: Detector, w: Waggle)
    requires Valid(det) && NoneAccepts(det, w)
    ensures Process(det, w).0.openDances
         == Without(det.openDances, StaleBefore(det, w, |det.openDances|)) + [Append(NewDance(), w)]
    ensures Process(det, w).1 == []
  {
    ScanFindsFirstAccepting(det, w);
    ScanFlagsStaleBefore(det, w);
    var s := ScanFrom(det, w, 0, []);
    if s.matched.Some? {
      assert false;
    }
    DeleteInReverseIsWithout(det.openDances, s.stale);
  }

  /** The dances after the accepting one are neither examined nor changed: they end the new list, in order, right after the grown dance. */
  lemma {:induction false} ProcessKeepsDancesAfterMatch(det: Detector, w: Waggle, m: nat)
    requires Valid(det) && FirstAccepting(det, w, m)
    ensures var after := Process(det, w).0.openDances;
      var tail := [Grow(det, det.openDances[m], w)] + det.openDances[m + 1..];
      |after| >= |tail| && after[|after| - |tail|..] == tail
  {
    ProcessJoinsFirstAccepting(det, w, m);
    WithoutEndsWith(det.openDances, StaleBefore(det, w, m), m, Grow(det, det.openDances[m], w));
  }

  /** One dance's members as (position, angle) pairs, as Python's `zip(dance.coords, dance.angles)`. */
  function Zip(d: Dance): (r: seq<(Point, Option<real>)>)
    requires WellFormed(d)
    ensures |r| == Len(d)
    ensures forall j :: 0 <= j < |r| ==> r[j] == (d.coords[j], d.angles[j])
  {
    seq(|d.coords|, j requires 0 <= j < |d.coords| => (d.coords[j], d.angles[j]))
  }

  /** `get_dance_positions`: for every open dance, its members' positions paired with their angles. */
  function DancePositions(det: Detector): (r: seq<seq<(Point, Option<real>)>>)
    requires Valid(det)
    ensures |r| == |det.openDances|
    ensures forall i :: 0 <= i < |r| ==> |r[i]| == Len(det.openDances[i]) > 0
    ensures forall i, j :: 0 <= i < |r| && 0 <= j < |det.openDances[i].coords| ==>
      j < |r[i]| && r[i][j] == (det.openDances[i].coords[j], det.openDances[i].angles[j])
  {
    seq(|det.openDances|, i requires 0 <= i < |det.openDances| && IsOpen(det.openDances[i]) => Zip(det.openDances[i]))
  }
}
