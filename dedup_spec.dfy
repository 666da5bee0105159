/**
 The deduplication rule of the MicroWatcher camera loop, as pure functions.

 Each frame yields an ordered batch of detections (an integer bounding box and a
 confidence score) and one timestamp. A detection is suppressed when some
 remembered entry lies strictly closer than the distance threshold and is strictly
 younger than the detection delay; otherwise it is recorded and remembered under
 its own box. `Run` gives the outcome of one whole batch, processed in order.
 */
module DedupSpec {

  /** An axis-aligned bounding box in integer pixel coordinates. */
  datatype Box = Box(xmin: int, ymin: int, xmax: int, ymax: int)

  /** A point in pixel space; centres of boxes may fall on half pixels. */
  datatype Point = Point(x: real, y: real)

  /** One output of the detector: a box and its confidence score. */
  datatype Detection = Detection(box: Box, score: real)

  /** What the loop remembers about an accepted box: when it was seen and its centre. */
  datatype Entry = Entry(time: real, center: Point)

  /** The record handed to the database for an accepted detection. */
  datatype Record = Record(box: Box, score: real, time: real)

  /** The two thresholds of the loop: a distance in pixels and a delay in seconds. */
  datatype Config = Config(distanceThreshold: real, detectionDelay: real)

  /** The values the camera loop uses: 50 pixels and 5 seconds. */
  const SourceConfig: Config := Config(50.0, 5.0)

  /** The decision taken for one detection. */
  datatype Decision = Accept(record: Record) | Suppress

  /** The remembered detections, keyed by box. */
  type Table = map<Box, Entry>

  /** The table after a batch and the decision taken for each detection of it. */
  datatype Outcome = Outcome(table: Table, decisions: seq<Decision>)

  /** The midpoint of a box. */
  function Center(b: Box): Point
  {
    Point((b.xmin + b.xmax) as real / 2.0, (b.ymin + b.ymax) as real / 2.0)
  }

  /** The squared Euclidean distance between two points. */
  function Dist2(p: Point, q: Point): real
  {
    (p.x - q.x) * (p.x - q.x) + (p.y - q.y) * (p.y - q.y)
  }

  /**
   Whether the Euclidean distance between p and q is strictly below `threshold`,
   decided without a square root: a distance is never negative, so no point is
   within a threshold that is not positive.
   */
  predicate Near(p: Point, q: Point, threshold: real)
  {
    0.0 < threshold && Dist2(p, q) < threshold * threshold
  }

  /** Whether a remembered entry suppresses a detection centred at `c` at time `now`. */
  predicate Matches(e: Entry, c: Point, now: real, cfg: Config)
  {
    Near(c, e.center, cfg.distanceThreshold) && now - e.time < cfg.detectionDelay
  }

  /** Whether some entry of the table suppresses a detection centred at `c`. */
  predicate Suppressed(t: Table, c: Point, now: real, cfg: Config)
  {
    exists k :: k in t && Matches(t[k], c, now, cfg)
  }

  /** The database record for an accepted detection. */
  function RecordOf(d: Detection, now: real): Record
  {
    Record(d.box, d.score, now)
  }

  /** The entry remembered for an accepted detection. */
  function EntryOf(d: Detection, now: real): Entry
  {
    Entry(now, Center(d.box))
  }

  /**
   The outcome of processing `dets` in order, all at time `now`, starting from the
   table `t`: each detection is judged against the table as left by the ones
   before it.
   */
  function Run(t: Table, dets: seq<Detection>, now: real, cfg: Config): (r: Outcome)
    ensures |r.decisions| == |dets|
    ensures forall i :: 0 <= i < |dets| && r.decisions[i].Accept? ==> r.decisions[i].record == RecordOf(dets[i], now)
    ensures t.Keys <= r.table.Keys
    decreases |dets|
  {
    if dets == [] then Outcome(t, [])
    else
      var prev := Run(t, dets[..|dets| - 1], now, cfg);
      var d := dets[|dets| - 1];
      if Suppressed(prev.table, Center(d.box), now, cfg) then
        Outcome(prev.table, prev.decisions + [Suppress])
      else
        Outcome(prev.table[d.box := EntryOf(d, now)], prev.decisions + [Accept(RecordOf(d, now))])
  }

  /** The records of the accepted decisions, in order. */
  function Accepted(ds: seq<Decision>): (rs: seq<Record>)
    ensures |rs| <= |ds|
    decreases |ds|
  {
    if ds == [] then []
    else
      var last := ds[|ds| - 1];
      Accepted(ds[..|ds| - 1]) + (if last.Accept? then [last.record] else [])
  }

  /**
   The positions of the accepted decisions, in increasing order; the k-th record of
   `Accepted(ds)` is the record of decision `AcceptedIndices(ds)[k]`.
   */
  function AcceptedIndices(ds: seq<Decision>): (idx: seq<nat>)
    ensures |idx| == |Accepted(ds)|
    ensures forall k :: 0 <= k < |idx| ==> idx[k] < |ds| && ds[idx[k]].Accept? && ds[idx[k]].record == Accepted(ds)[k]
    ensures forall k, l :: 0 <= k < l < |idx| ==> idx[k] < idx[l]
    ensures forall i :: 0 <= i < |ds| && ds[i].Accept? ==> i in idx
    decreases |ds|
  {
    if ds == [] then []
    else
      var n := |ds| - 1;
      var prefix := ds[..n];
      assert forall i :: 0 <= i < n ==> ds[i] == prefix[i];
      AcceptedIndices(prefix) + (if ds[n].Accept? then [n] else [])
  }

  /** Every remembered entry sits at the midpoint of the box it is keyed by. */
  ghost predicate CentersAreMidpoints(t: Table)
  {
    forall k :: k in t ==> t[k].center == Center(k)
  }
}
