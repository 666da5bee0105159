/**
 The per-frame loop of the camera stream: the dictionary of last detections, the
 scan over its keys, and the record emitted for each accepted detection.
 */
module CameraStream {
  import opened DedupSpec
  import DedupProps

  /**
   Scans every remembered entry for one that suppresses a detection centred at `c`,
   stopping at the first hit. Keys are visited in an arbitrary order, so the result
   holds for whatever order the dictionary is iterated in.
   */
  method ScanForMatch(table: Table, c: Point, now: real, cfg: Config) returns (detected: bool)
    ensures detected <==> Suppressed(table, c, now, cfg)
  {
    detected := false;
    var unvisited := table.Keys;
    while unvisited != {}
      invariant unvisited <= table.Keys
      invariant !detected
      invariant forall k :: k in table && k !in unvisited ==> !Matches(table[k], c, now, cfg)
      decreases unvisited
    {
      var key :| key in unvisited;
      var last := table[key];
      if Matches(last, c, now, cfg) {
        detected := true;
        break;
      }
      unvisited := unvisited - {key};
    }
  }

  /** The state the camera loop carries from frame to frame. */
  class Deduplicator {
    const cfg: Config
    var lastDetectionTime: Table
    /** How many detections have been accepted since the loop started. */
    ghost var acceptedTotal: nat

    ghost predicate Valid()
      reads this
    {
      CentersAreMidpoints(lastDetectionTime) && |lastDetectionTime| <= acceptedTotal
    }

    constructor (cfg: Config)
      ensures Valid()
      ensures this.cfg == cfg && lastDetectionTime == map[] && acceptedTotal == 0
    {
      this.cfg := cfg;
      lastDetectionTime := map[];
      acceptedTotal := 0;
    }

    /**
     Judges one detection of the current frame against the dictionary: when nothing
     suppresses it, its box is remembered with time `now` and its centre.
     */
    method HandleDetection(d: Detection, now: real) returns (accepted: bool)
      requires Valid()
      modifies this
      ensures Valid()
      ensures accepted <==> !Suppressed(old(lastDetectionTime), Center(d.box), now, cfg)
      ensures lastDetectionTime ==
        if accepted then old(lastDetectionTime)[d.box := EntryOf(d, now)] else old(lastDetectionTime)
      ensures acceptedTotal == old(acceptedTotal) + (if accepted then 1 else 0)
    {
      var boxCenter := Center(d.box);
      var detected := ScanForMatch(lastDetectionTime, boxCenter, now, cfg);
      accepted := !detected;
      if accepted {
        lastDetectionTime := lastDetectionTime[d.box := Entry(now, boxCenter)];
        acceptedTotal := acceptedTotal + 1;
      }
    }

    /**
     Handles one frame's detections, all stamped with `now`: each one that no live
     nearby entry suppresses is returned as a record and remembered under its box.
     */
    method ProcessFrame(dets: seq<Detection>, now: real) returns (records: seq<Record>)
      requires Valid()
      modifies this
      ensures Valid()
      ensures lastDetectionTime == Run(old(lastDetectionTime), dets, now, cfg).table
      ensures records == Accepted(Run(old(lastDetectionTime), dets, now, cfg).decisions)
      ensures old(lastDetectionTime).Keys <= lastDetectionTime.Keys
      ensures acceptedTotal == old(acceptedTotal) + |records|
    {
      ghost var t0 := lastDetectionTime;
      records := [];
      var i := 0;
      while i < |dets|
        invariant 0 <= i <= |dets|
        invariant Valid()
        invariant lastDetectionTime == Run(t0, dets[..i], now, cfg).table
        invariant records == Accepted(Run(t0, dets[..i], now, cfg).decisions)
        invariant acceptedTotal == old(acceptedTotal) + |records|
      {
        ghost var prev := Run(t0, dets[..i], now, cfg);
        DedupProps.RunExtend(t0, dets, i, now, cfg);
        var accepted := HandleDetection(dets[i], now);
        if accepted {
          records := records + [RecordOf(dets[i], now)];
        }
        DedupProps.AcceptedExtend(prev.decisions, Run(t0, dets[..i + 1], now, cfg).decisions[i]);
        i := i + 1;
      }
      assert dets[..|dets|] == dets;
    }
  }
}
