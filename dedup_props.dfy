/**
 Properties of the deduplication rule: what one decision depends on and what it
 changes, how decisions inside one batch affect each other, what the table keeps
 across batches, and the boundaries of the two strict comparisons.
 */
module DedupProps {
  import opened DedupSpec

  // ---------------------------------------------------------------------------
  // The distance test

  /**
   The squared-distance test agrees with the Euclidean one: for the distance `d`
   between p and q (the non-negative root of their squared distance), `Near` holds
   exactly when `d` is strictly below the threshold, whatever the threshold's sign.
   */
  lemma NearIffDistanceBelow(p: Point, q: Point, threshold: real, d: real)
    requires 0.0 <= d && d * d == Dist2(p, q)
    ensures Near(p, q, threshold) <==> d < threshold
  {
    if 0.0 < threshold {
      if d < threshold {
        SquareStrictlyBelow(d, threshold);
      } else if threshold < d {
        SquareStrictlyBelow(threshold, d);
      }
    }
  }

  /** Squaring is strictly monotonic on non-negative reals. */
  lemma SquareStrictlyBelow(a: real, b: real)
    requires 0.0 <= a < b
    ensures a * a < b * b
  {
    ProductPositive(b - a, b + a);
    assert b * b - a * a == (b - a) * (b + a);
  }

  /** The product of two positive reals is positive. */
  lemma ProductPositive(x: real, y: real)
    requires 0.0 < x && 0.0 < y
    ensures 0.0 < x * y
  {
  }

  /** A detection is always near its own centre when the threshold is positive. */
  lemma NearSelf(p: Point, threshold: real)
    requires 0.0 < threshold
    ensures Near(p, p, threshold)
  {
    SquareStrictlyBelow(0.0, threshold);
  }

  /** A detection exactly at the distance threshold from an entry is not suppressed by it. */
  lemma DistanceBoundaryDoesNotMatch(e: Entry, c: Point, now: real, cfg: Config)
    requires Dist2(c, e.center) == cfg.distanceThreshold * cfg.distanceThreshold
    ensures !Matches(e, c, now, cfg)
  {
  }

  /** An entry exactly as old as the detection delay suppresses nothing. */
  lemma AgeBoundaryDoesNotMatch(e: Entry, c: Point, now: real, cfg: Config)
    requires now - e.time == cfg.detectionDelay
    ensures !Matches(e, c, now, cfg)
  {
  }

  /**
   With the loop's own thresholds: an entry centred at (100, 100) and seen at time 0
   suppresses a detection centred at (149, 100) at time 4, but not one centred at
   (150, 100), 50 pixels away, and not the same detection at time 5.
   */
  lemma SourceBoundaries()
    ensures Matches(Entry(0.0, Point(100.0, 100.0)), Point(149.0, 100.0), 4.0, SourceConfig)
    ensures !Matches(Entry(0.0, Point(100.0, 100.0)), Point(150.0, 100.0), 4.0, SourceConfig)
    ensures !Matches(Entry(0.0, Point(100.0, 100.0)), Point(149.0, 100.0), 5.0, SourceConfig)
  {
  }

  // ---------------------------------------------------------------------------
  // Decisions inside one batch

  /** The decisions on a prefix of a batch are the first decisions on the whole batch. */
  lemma {:induction false} RunPrefix(t: Table, dets: seq<Detection>, m: nat, now: real, cfg: Config)
    requires m <= |dets|
    ensures Run(t, dets[..m], now, cfg).decisions == Run(t, dets, now, cfg).decisions[..m]
    decreases |dets|
  {
    if m < |dets| {
      var n := |dets| - 1;
      assert dets[..n][..m] == dets[..m];
      RunPrefix(t, dets[..n], m, now, cfg);
    } else {
      assert dets[..m] == dets;
    }
  }

  /** Extending a batch by one detection judges it against the table the batch left. */
  lemma RunExtend(t: Table, dets: seq<Detection>, i: nat, now: real, cfg: Config)
    requires i < |dets|
    ensures var prev := Run(t, dets[..i], now, cfg);
      var d := dets[i];
      Run(t, dets[..i + 1], now, cfg) ==
        if Suppressed(prev.table, Center(d.box), now, cfg) then Outcome(prev.table, prev.decisions + [Suppress])
        else Outcome(prev.table[d.box := EntryOf(d, now)], prev.decisions + [Accept(RecordOf(d, now))])
  {
    var upto := dets[..i + 1];
    assert upto[..i] == dets[..i] && upto[i] == dets[i];
  }

  /** The records of a longer list of decisions extend the records of the shorter one. */
  lemma AcceptedExtend(ds: seq<Decision>, d: Decision)
    ensures Accepted(ds + [d]) == Accepted(ds) + (if d.Accept? then [d.record] else [])
  {
    assert (ds + [d])[..|ds|] == ds;
  }

  /** Detection i of a batch is judged against the table left by detections 0..i-1. */
  lemma StepAt(t: Table, dets: seq<Detection>, i: nat, now: real, cfg: Config)
    requires i < |dets|
    ensures var before := Run(t, dets[..i], now, cfg).table;
      var suppressed := Suppressed(before, Center(dets[i].box), now, cfg);
      && Run(t, dets, now, cfg).decisions[i] == (if suppressed then Suppress else Accept(RecordOf(dets[i], now)))
      && Run(t, dets[..i + 1], now, cfg).table == (if suppressed then before else before[dets[i].box := EntryOf(dets[i], now)])
  {
    RunPrefix(t, dets, i + 1, now, cfg);
    RunExtend(t, dets, i, now, cfg);
  }

  /**
   Detection i is accepted exactly when no entry of the table left by detections
   0..i-1 has its centre strictly within the distance threshold and its time
   strictly within the detection delay.
   */
  lemma AcceptIffNoLiveMatch(t: Table, dets: seq<Detection>, i: nat, now: real, cfg: Config)
    requires i < |dets|
    ensures var before := Run(t, dets[..i], now, cfg).table;
      Run(t, dets, now, cfg).decisions[i].Accept? <==>
        forall k :: k in before ==>
          !(Near(Center(dets[i].box), before[k].center, cfg.distanceThreshold) && now - before[k].time < cfg.detectionDelay)
  {
    StepAt(t, dets, i, now, cfg);
  }

  /**
   What detection i does to the table: a suppressed detection leaves it exactly as
   it was (no entry is added and the matching entry is not refreshed); an accepted
   one writes its own box, with time `now` and its centre, and leaves every other
   key as it was.
   */
  lemma DecisionEffect(t: Table, dets: seq<Detection>, i: nat, now: real, cfg: Config)
    requires i < |dets|
    ensures var before := Run(t, dets[..i], now, cfg).table;
      var after := Run(t, dets[..i + 1], now, cfg).table;
      var b := dets[i].box;
      && (Run(t, dets, now, cfg).decisions[i].Suppress? ==> after == before)
      && (Run(t, dets, now, cfg).decisions[i].Accept? ==>
            && after.Keys == before.Keys + {b}
            && after[b] == Entry(now, Center(b))
            && forall k :: k in before && k != b ==> after[k] == before[k])
  {
    StepAt(t, dets, i, now, cfg);
  }

  /**
   A box already in the table is only ever overwritten when its entry is too old to
   suppress: its centre is the detection's own, so only age can fail the test.
   */
  lemma OverwrittenEntryIsStale(t: Table, d: Detection, now: real, cfg: Config)
    requires CentersAreMidpoints(t)
    requires 0.0 < cfg.distanceThreshold
    requires d.box in t
    requires Run(t, [d], now, cfg).decisions[0].Accept?
    ensures now - t[d.box].time >= cfg.detectionDelay
  {
    assert [d][..0] == [];
    if now - t[d.box].time < cfg.detectionDelay {
      NearSelf(Center(d.box), cfg.distanceThreshold);
      assert Matches(t[d.box], Center(d.box), now, cfg);
      assert false;
    }
  }

  /**
   The same holds at any position of a batch that starts from a table of midpoint
   centres: detection i overwrites its box only when the entry under it, as left by
   detections 0..i-1, is at least as old as the detection delay.
   */
  lemma OverwrittenEntryIsStaleAt(t: Table, dets: seq<Detection>, i: nat, now: real, cfg: Config)
    requires CentersAreMidpoints(t)
    requires 0.0 < cfg.distanceThreshold
    requires i < |dets|
    requires dets[i].box in Run(t, dets[..i], now, cfg).table
    requires Run(t, dets, now, cfg).decisions[i].Accept?
    ensures now - Run(t, dets[..i], now, cfg).table[dets[i].box].time >= cfg.detectionDelay
  {
    var before := Run(t, dets[..i], now, cfg).table;
    StepAt(t, dets, i, now, cfg);
    RunKeepsMidpoints(t, dets[..i], now, cfg);
    if now - before[dets[i].box].time < cfg.detectionDelay {
      NearSelf(Center(dets[i].box), cfg.distanceThreshold);
      assert Matches(before[dets[i].box], Center(dets[i].box), now, cfg);
      assert false;
    }
  }

  /** Once accepted, a detection's entry stays in the table for the rest of the batch. */
  lemma {:induction false} AcceptedStaysLive(t: Table, dets: seq<Detection>, i: nat, now: real, cfg: Config)
    requires i < |dets|
    requires Run(t, dets, now, cfg).decisions[i].Accept?
    ensures dets[i].box in Run(t, dets, now, cfg).table
    ensures Run(t, dets, now, cfg).table[dets[i].box] == EntryOf(dets[i], now)
    decreases |dets|
  {
    var n := |dets| - 1;
    if i < n {
      var prefix := dets[..n];
      assert prefix[i] == dets[i];
      AcceptedStaysLive(t, prefix, i, now, cfg);
    }
  }

  /**
   Sequential semantics: an accepted detection suppresses every later detection of
   the same batch whose centre is strictly within the distance threshold of its own.
   */
  lemma EarlierAcceptSuppressesLater(t: Table, dets: seq<Detection>, i: nat, j: nat, now: real, cfg: Config)
    requires i < j < |dets|
    requires 0.0 < cfg.detectionDelay
    requires Run(t, dets, now, cfg).decisions[i].Accept?
    requires Near(Center(dets[j].box), Center(dets[i].box), cfg.distanceThreshold)
    ensures Run(t, dets, now, cfg).decisions[j].Suppress?
  {
    var before := dets[..j];
    RunPrefix(t, dets, j, now, cfg);
    assert before[i] == dets[i];
    AcceptedStaysLive(t, before, i, now, cfg);
    var table := Run(t, before, now, cfg).table;
    assert Matches(table[dets[i].box], Center(dets[j].box), now, cfg);
    AcceptIffNoLiveMatch(t, dets, j, now, cfg);
  }

  /**
   The same detection twice in one frame: the second copy is always suppressed and
   leaves the table as the first copy left it.
   */
  lemma SameDetectionTwice(t: Table, d: Detection, now: real, cfg: Config)
    requires 0.0 < cfg.distanceThreshold && 0.0 < cfg.detectionDelay
    ensures Run(t, [d, d], now, cfg).decisions[1] == Suppress
    ensures Run(t, [d, d], now, cfg).table == Run(t, [d], now, cfg).table
  {
    var dets := [d, d];
    assert dets[..1] == [d];
    assert [d][..0] == [];
    if Run(t, dets, now, cfg).decisions[0].Accept? {
      NearSelf(Center(d.box), cfg.distanceThreshold);
      EarlierAcceptSuppressesLater(t, dets, 0, 1, now, cfg);
    }
  }

  /**
   Decisions depend on input order: with a 5-pixel threshold and an empty table,
   boxes centred at (0, 0) and (1, 1) give accept-then-suppress in either order,
   so which one is recorded depends on which comes first.
   */
  lemma OrderSensitivity(a: real, b: real)
    ensures var cfg := Config(5.0, 5.0);
      var da := Detection(Box(-1, -1, 1, 1), a);
      var db := Detection(Box(0, 0, 2, 2), b);
      && Run(map[], [da, db], 0.0, cfg).decisions == [Accept(Record(da.box, a, 0.0)), Suppress]
      && Run(map[], [db, da], 0.0, cfg).decisions == [Accept(Record(db.box, b, 0.0)), Suppress]
  {
    var cfg := Config(5.0, 5.0);
    var da := Detection(Box(-1, -1, 1, 1), a);
    var db := Detection(Box(0, 0, 2, 2), b);
    assert [da, db][..1] == [da] && [db, da][..1] == [db];
    assert [da][..0] == [] && [db][..0] == [];
    assert Run(map[], [], 0.0, cfg) == Outcome(map[], []);
    assert !Suppressed(map[], Center(da.box), 0.0, cfg) && !Suppressed(map[], Center(db.box), 0.0, cfg);
    var ta := Run(map[], [da], 0.0, cfg).table;
    assert Matches(ta[da.box], Center(db.box), 0.0, cfg);
    var tb := Run(map[], [db], 0.0, cfg).table;
    assert Matches(tb[db.box], Center(da.box), 0.0, cfg);
  }

  // ---------------------------------------------------------------------------
  // Records

  /**
   The records of a batch are the accepted detections' boxes and scores stamped
   with `now`, in input order, and there are at most as many as detections.
   */
  lemma RecordsInInputOrder(t: Table, dets: seq<Detection>, now: real, cfg: Config)
    ensures var r := Run(t, dets, now, cfg);
      var idx := AcceptedIndices(r.decisions);
      && |Accepted(r.decisions)| <= |dets|
      && (forall k :: 0 <= k < |idx| ==> idx[k] < |dets| && Accepted(r.decisions)[k] == RecordOf(dets[idx[k]], now))
      && (forall k, l :: 0 <= k < l < |idx| ==> idx[k] < idx[l])
  {
  }

  // ---------------------------------------------------------------------------
  // The table across batches

  /** Every entry the loop writes sits at the midpoint of its box. */
  lemma {:induction false} RunKeepsMidpoints(t: Table, dets: seq<Detection>, now: real, cfg: Config)
    requires CentersAreMidpoints(t)
    ensures CentersAreMidpoints(Run(t, dets, now, cfg).table)
    decreases |dets|
  {
    if dets != [] {
      RunKeepsMidpoints(t, dets[..|dets| - 1], now, cfg);
    }
  }

  /**
   Nothing is removed and each accepted detection adds at most one key: the table
   keeps every old key and grows by no more than the number of records.
   */
  lemma {:induction false} TableGrowth(t: Table, dets: seq<Detection>, now: real, cfg: Config)
    ensures var r := Run(t, dets, now, cfg);
      t.Keys <= r.table.Keys && |r.table| <= |t| + |Accepted(r.decisions)|
    decreases |dets|
  {
    if dets != [] {
      var n := |dets| - 1;
      var prev := Run(t, dets[..n], now, cfg);
      TableGrowth(t, dets[..n], now, cfg);
      var r := Run(t, dets, now, cfg);
      assert r.decisions[..n] == prev.decisions;
    }
  }

  /**
   Three frames with the loop's thresholds: a detection centred at (100, 100) at
   time 0 is recorded; one centred at (120, 110), about 22 pixels away, is
   suppressed at time 2; the same detection is recorded at time 6, because the
   first entry was never refreshed and is by then 6 seconds old.
   */
  lemma ReobservationScenario(s0: real, s1: real)
    ensures var first := Detection(Box(50, 50, 150, 150), s0);
      var second := Detection(Box(70, 60, 170, 160), s1);
      var f0 := Run(map[], [first], 0.0, SourceConfig);
      var f1 := Run(f0.table, [second], 2.0, SourceConfig);
      var f2 := Run(f1.table, [second], 6.0, SourceConfig);
      && f0.decisions == [Accept(Record(first.box, s0, 0.0))]
      && f1.decisions == [Suppress]
      && f1.table == f0.table
      && f2.decisions == [Accept(Record(second.box, s1, 6.0))]
      && f2.table.Keys == {first.box, second.box}
  {
    var first := Detection(Box(50, 50, 150, 150), s0);
    var second := Detection(Box(70, 60, 170, 160), s1);
    assert [first][..0] == [] && [second][..0] == [];
    assert Run(map[], [], 0.0, SourceConfig) == Outcome(map[], []);
    assert !Suppressed(map[], Center(first.box), 0.0, SourceConfig);
    var f0 := Run(map[], [first], 0.0, SourceConfig);
    assert f0.table == map[first.box := EntryOf(first, 0.0)];
    assert Center(first.box) == Point(100.0, 100.0);
    assert Center(second.box) == Point(120.0, 110.0);
    assert Matches(f0.table[first.box], Center(second.box), 2.0, SourceConfig);
  }
}
