/** The trip part of the batching adapter: a map of sessions whose distances are updated
    and whose entries are erased in place. Every method is proved to compute the
    operations of TripRuns. */
module BatchingAdapter {
  import opened Options
  import opened Sequences
  import opened TripDistance
  import opened TripRuns

  class Adapter {
    // The map, listed by ascending session id.
    var mTripSessions: seq<Trip>
    var mOngoingTripDistance: uint32
    var mOngoingTripTBFInterval: uint32
    var mTripWithOngoingTBFDropped: bool
    var mTripWithOngoingTripDistanceDropped: bool

    ghost function State(): Ongoing
      reads this
    {
      Ongoing(mOngoingTripDistance, mOngoingTripTBFInterval,
              mTripWithOngoingTripDistanceDropped, mTripWithOngoingTBFDropped)
    }

    ghost function Abs(): Batch
      reads this
    {
      Batch(mTripSessions, State())
    }

    constructor ()
      ensures Abs() == IDLE
    {
      mTripSessions, mOngoingTripDistance, mOngoingTripTBFInterval := [], 0, 0;
      mTripWithOngoingTBFDropped, mTripWithOngoingTripDistanceDropped := false, false;
    }

    /** One session of the sweep: it is read, and if it is finished it is erased and the
        flags are raised. The result tells whether. */
    method SweepOne(itt: nat, accumulatedDistance: uint32) returns (finished: bool)
      requires itt < |mTripSessions|
      modifies this
      ensures var t, o := old(mTripSessions)[itt], old(State());
              var s := Read(t.session, accumulatedDistance);
        && finished == Finished(s) && itt <= |mTripSessions|
        && mTripSessions[..itt] == old(mTripSessions)[..itt]
        && mTripSessions[itt..] == (if finished then [] else [t.(session := s)]) + old(mTripSessions)[itt+1..]
        && State() == o.(
             distanceDropped := o.distanceDropped || (finished && OfDistance(o.distance)(t.session)),
             tbfDropped := o.tbfDropped || (finished && OfInterval(o.tbf)(t.session)))
    {
      var trip := mTripSessions[itt];
      var session := Read(trip.session, accumulatedDistance);
      finished := session.tripDistance <= session.thisTrip;
      if finished {
        mTripSessions := mTripSessions[..itt] + mTripSessions[itt+1..];
        if session.tbfInterval == mOngoingTripTBFInterval {
          mTripWithOngoingTBFDropped := true;
        }
        if session.tripDistance == mOngoingTripDistance {
          mTripWithOngoingTripDistanceDropped := true;
        }
      } else {
        mTripSessions := mTripSessions[itt := trip.(session := session)];
      }
    }

    /** The sweep at a reported odometer reading: one pass that updates every session and
        erases the finished ones on the way. */
    method SweepCompletedTrips(accumulatedDistance: uint32) returns (completedTripsList: seq<uint32>)
      modifies this
      ensures Abs() == Swept(old(Abs()), accumulatedDistance)
      ensures completedTripsList == CompletedIds(old(mTripSessions), accumulatedDistance)
    {
      completedTripsList := [];
      ghost var was, done, b := mTripSessions, 0, Abs();
      var itt: nat := 0;
      while itt < |mTripSessions|
        invariant done <= |was| && itt <= |mTripSessions| && mTripSessions[itt..] == was[done..]
        invariant Batch(mTripSessions[..itt], State()) == Swept(b.(trips := was[..done]), accumulatedDistance)
        invariant completedTripsList == CompletedIds(was[..done], accumulatedDistance)
        decreases |was| - done
      {
        assert mTripSessions[itt..][0] == was[done..][0];
        NextTake(mTripSessions, itt);
        NextTake(was, done);
        SweepGoesOn(b.(trips := was[..done]), was[done], accumulatedDistance);
        var id := mTripSessions[itt].id;
        var finished := SweepOne(itt, accumulatedDistance);
        if finished {
          completedTripsList := completedTripsList + [id];
        } else {
          assert mTripSessions[itt..] != [];
          NextTake(mTripSessions, itt);
          itt := itt + 1;
        }
        done := done + 1;
      }
      assert was[..done] == was && mTripSessions[..itt] == mTripSessions;
    }

    /** The loop that finds the least remaining distance and interval. */
    method Minima() returns (minRemainingDistance: uint32, minTBFInterval: uint32)
      ensures minRemainingDistance == SentinelMin(Remainings(mTripSessions))
      ensures minTBFInterval == SentinelMin(Intervals(mTripSessions))
    {
      minRemainingDistance, minTBFInterval := 0, 0;
      for k := 0 to |mTripSessions|
        invariant minRemainingDistance == SentinelMin(Remainings(mTripSessions[..k]))
        invariant minTBFInterval == SentinelMin(Intervals(mTripSessions[..k]))
      {
        assert Remainings(mTripSessions[..k+1])[..k] == Remainings(mTripSessions[..k]);
        assert Intervals(mTripSessions[..k+1])[..k] == Intervals(mTripSessions[..k]);
        var s := mTripSessions[k].session;
        if minRemainingDistance == 0 || minRemainingDistance > Sub(s.tripDistance, s.thisTrip) {
          minRemainingDistance := Sub(s.tripDistance, s.thisTrip);
        }
        if minTBFInterval == 0 || minTBFInterval > s.tbfInterval {
          minTBFInterval := s.tbfInterval;
        }
      }
      assert mTripSessions[..|mTripSessions|] == mTripSessions;
    }

    /** Decides, at a modem reading, whether and how to restart the batch; without trips
        it is stopped. */
    method RestartTripBatching(accumulatedDistance: uint32) returns (plan: Restart)
      modifies this`mOngoingTripDistance, this`mOngoingTripTBFInterval
      ensures plan == PlanAt(old(Abs()), accumulatedDistance)
      ensures Abs() == if plan == Stop then Carried(old(Abs()), Stop, accumulatedDistance, true) else old(Abs())
      ensures plan == Stop <==> old(mTripSessions) == []
      ensures plan == Stop ==> mOngoingTripDistance == mOngoingTripTBFInterval == 0
    {
      if mTripSessions == [] {
        mOngoingTripDistance, mOngoingTripTBFInterval := 0, 0;
        return Stop;
      }
      var minRemainingDistance, minTBFInterval := Minima();
      var needsRestart, distance, interval := false, mOngoingTripDistance, mOngoingTripTBFInterval;
      if !mTripWithOngoingTripDistanceDropped && Sub(distance, accumulatedDistance) != 0 {
        if minRemainingDistance < Sub(distance, accumulatedDistance) {
          distance, needsRestart := minRemainingDistance, true;
        }
      } else if minRemainingDistance != 0 {
        distance, needsRestart := minRemainingDistance, true;
      }
      if minTBFInterval < interval || (minTBFInterval != interval && mTripWithOngoingTBFDropped) {
        interval, needsRestart := minTBFInterval, true;
      }
      plan := if needsRestart then RestartWith(distance, interval) else NoRestart;
    }

    /** A completion report: the batch is looked at again only if a trip has ended. */
    method ReportCompletedTrips(accumulatedDistance: uint32) returns (completed: seq<uint32>, plan: Restart)
      modifies this
      ensures completed == CompletedIds(old(mTripSessions), accumulatedDistance)
      ensures plan == ReportPlan(old(Abs()), accumulatedDistance)
      ensures var b := Swept(old(Abs()), accumulatedDistance);
        Abs() == if plan == Stop then Carried(b, Stop, accumulatedDistance, true) else b
    {
      completed := SweepCompletedTrips(accumulatedDistance);
      plan := NoRestart;
      if completed != [] {
        plan := RestartTripBatching(accumulatedDistance);
      }
    }

    /** The modem has answered the restart: on success every session is rebased on the
        reading that the restart was decided at. */
    method OnRestarted(success: bool, accumulatedDistance: uint32, distance: uint32, interval: uint32)
      modifies this
      ensures Abs() == Carried(old(Abs()), RestartWith(distance, interval), accumulatedDistance, success)
      ensures !success ==> Abs() == old(Abs())
    {
      if !success {
        return;
      }
      ghost var was := mTripSessions;
      for k := 0 to |mTripSessions|
        invariant |mTripSessions| == |was| && State() == old(State())
        invariant forall j :: 0 <= j < k ==>
          mTripSessions[j] == was[j].(session := Rebase(was[j].session, accumulatedDistance))
        invariant forall j :: k <= j < |was| ==> mTripSessions[j] == was[j]
      {
        var s := mTripSessions[k].session;
        s := s.(thisTrip := Add(s.onRestart, Sub(accumulatedDistance, s.ongoingBatch)));
        s := s.(ongoingBatch := 0, onRestart := s.thisTrip);
        mTripSessions := mTripSessions[k := mTripSessions[k].(session := s)];
      }
      assert mTripSessions == RebaseTrips(was, accumulatedDistance);
      mOngoingTripDistance, mOngoingTripTBFInterval := distance, interval;
    }

    /** The first trip: the session is entered before the modem answers and dropped again
        if it refuses. */
    method StartFirstTrip(sessionId: uint32, minDistance: uint32, minInterval: uint32, success: bool)
      requires mTripSessions == []
      modifies this
      ensures Abs() == StartFirst(old(Abs()), sessionId, minDistance, minInterval, success)
      ensures !success ==> Abs() == old(Abs())
    {
      mTripSessions := Put(mTripSessions, Trip(sessionId, Session(0, 0, 0, minDistance, minInterval)));
      if success {
        mOngoingTripDistance, mOngoingTripTBFInterval := minDistance, minInterval;
      } else {
        mTripSessions := Erase(mTripSessions, sessionId);
      }
    }

    /** A further trip, once the query of the distance has been answered. The result says
        whether the modem is restarted, with what is the ongoing distance and interval
        then. */
    method JoinTrip(sessionId: uint32, minDistance: uint32, minInterval: uint32, query: Option<uint32>)
      returns (needsRestart: bool)
      modifies this
      ensures Abs() == Join(old(Abs()), sessionId, minDistance, minInterval, query)
      ensures needsRestart == JoinPlan(old(State()), minDistance, minInterval, query).0
    {
      var ongoingTripDistance, ongoingTripInterval := mOngoingTripDistance, mOngoingTripTBFInterval;
      needsRestart := false;
      if ongoingTripInterval > minInterval {
        ongoingTripInterval, needsRestart := minInterval, true;
      }
      if query == None {
        if minDistance < ongoingTripDistance {
          ongoingTripDistance, needsRestart := minDistance, true;
        }
      } else {
        var remaining := Sub(ongoingTripDistance, query.value);
        if minDistance < remaining {
          ongoingTripDistance, needsRestart := minDistance, true;
        } else if needsRestart {
          ongoingTripDistance := remaining;
        }
        mTripSessions := Put(mTripSessions, Trip(sessionId, Session(query.value, 0, 0, minDistance, minInterval)));
      }
      if needsRestart {
        mOngoingTripDistance, mOngoingTripTBFInterval := ongoingTripDistance, ongoingTripInterval;
        ResumeAll();
      }
    }

    method ResumeAll()
      modifies this`mTripSessions
      ensures mTripSessions == ResumeTrips(old(mTripSessions))
    {
      ghost var was := mTripSessions;
      for k := 0 to |mTripSessions|
        invariant |mTripSessions| == |was|
        invariant forall j :: 0 <= j < k ==> mTripSessions[j] == was[j].(session := Resume(was[j].session))
        invariant forall j :: k <= j < |was| ==> mTripSessions[j] == was[j]
      {
        var s := mTripSessions[k].session;
        s := s.(ongoingBatch := 0, onRestart := s.thisTrip);
        mTripSessions := mTripSessions[k := mTripSessions[k].(session := s)];
      }
      assert mTripSessions == ResumeTrips(was);
    }

    /** A trip is stopped, and the rest is looked at again at a queried reading. */
    method StopTrip(sessionId: uint32, query: uint32) returns (plan: Restart)
      requires Find(mTripSessions, sessionId).Some?
      modifies this
      ensures plan == PlanAt(Left(old(Abs()), sessionId), query)
      ensures plan == Stop ==> mTripSessions == [] && mOngoingTripDistance == mOngoingTripTBFInterval == 0
      ensures var b := Left(old(Abs()), sessionId);
        Abs() == if plan == Stop then Carried(b, Stop, query, true) else b
    {
      var tripSess := Find(mTripSessions, sessionId).value;
      if tripSess.tbfInterval == mOngoingTripTBFInterval {
        mTripWithOngoingTBFDropped := true;
      }
      if tripSess.tripDistance == mOngoingTripDistance {
        mTripWithOngoingTripDistanceDropped := true;
      }
      mTripSessions := Erase(mTripSessions, sessionId);
      if mTripSessions == [] {
        mOngoingTripDistance, mOngoingTripTBFInterval := 0, 0;
        plan := Stop;
      } else {
        plan := RestartTripBatching(query);
      }
    }
  }
}
