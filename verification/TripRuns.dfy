/** What starting, stopping and completing trips does to the batching adapter, what a
    completion report makes the modem do, and runs that go wrong. */
module TripRuns {
  import opened Options
  import opened Sequences
  import opened TripDistance

  /** The sessions, listed by ascending id, and the adapter's view of the modem. */
  datatype Batch = Batch(trips: seq<Trip>, ongoing: Ongoing)

  const IDLE := Batch([], Ongoing(0, 0, false, false))

  // ---------- The map of sessions ----------

  function Put(trips: seq<Trip>, t: Trip): seq<Trip> {
    if trips == [] || t.id < trips[0].id then [t] + trips
    else if t.id == trips[0].id then [t] + trips[1..]
    else [trips[0]] + Put(trips[1..], t)
  }

  function Erase(trips: seq<Trip>, id: uint32): seq<Trip> {
    if trips == [] then [] else if trips[0].id == id then trips[1..] else [trips[0]] + Erase(trips[1..], id)
  }

  function Find(trips: seq<Trip>, id: uint32): Option<Session> {
    if trips == [] then None else if trips[0].id == id then Some(trips[0].session) else Find(trips[1..], id)
  }

  function RebaseTrips(trips: seq<Trip>, a: uint32): (r: seq<Trip>)
    ensures |r| == |trips|
  {
    seq(|trips|, i requires 0 <= i < |trips| => trips[i].(session := Rebase(trips[i].session, a)))
  }

  /** A restart of the start path does not look at the reading: every session goes on from
      the distance that it had last. */
  function Resume(s: Session): Session {
    s.(ongoingBatch := 0, onRestart := s.thisTrip)
  }

  function ResumeTrips(trips: seq<Trip>): (r: seq<Trip>)
    ensures |r| == |trips|
  {
    seq(|trips|, i requires 0 <= i < |trips| => trips[i].(session := Resume(trips[i].session)))
  }

  // ---------- Restarts ----------

  function PlanAt(b: Batch, a: uint32): Restart {
    if b.trips == [] then Stop
    else Decide(b.ongoing, SentinelMin(Remainings(b.trips)), SentinelMin(Intervals(b.trips)), a)
  }

  function SetOngoing(o: Ongoing, distance: uint32, tbf: uint32): Ongoing {
    o.(distance := distance, tbf := tbf)
  }

  /** The batch once the plan for reading a has been carried out; success is the modem's
      answer to a restart. */
  function Carried(b: Batch, plan: Restart, a: uint32, success: bool): Batch {
    match plan
    case Stop => b.(ongoing := SetOngoing(b.ongoing, 0, 0))
    case NoRestart => b
    case RestartWith(distance, tbf) =>
      if success then Batch(RebaseTrips(b.trips, a), SetOngoing(b.ongoing, distance, tbf)) else b
  }

  // ---------- The operations ----------

  /** The sweep of a completion report. */
  function Swept(b: Batch, a: uint32): Batch {
    Batch(Survivors(b.trips, a),
          b.ongoing.(
            distanceDropped := b.ongoing.distanceDropped || AnyEnds(b.trips, a, OfDistance(b.ongoing.distance)),
            tbfDropped := b.ongoing.tbfDropped || AnyEnds(b.trips, a, OfInterval(b.ongoing.tbf))))
  }

  /** The sweep of one session more. */
  lemma SweepGoesOn(b: Batch, t: Trip, a: uint32)
    ensures var before, s, o := Swept(b, a), Read(t.session, a), b.ongoing;
            var after := Swept(b.(trips := b.trips + [t]), a);
      && after.trips == before.trips + (if Finished(s) then [] else [t.(session := s)])
      && after.ongoing == before.ongoing.(
           distanceDropped := before.ongoing.distanceDropped || (Finished(s) && OfDistance(o.distance)(t.session)),
           tbfDropped := before.ongoing.tbfDropped || (Finished(s) && OfInterval(o.tbf)(t.session)))
    ensures CompletedIds(b.trips + [t], a) ==
              CompletedIds(b.trips, a) + if Finished(Read(t.session, a)) then [t.id] else []
  {
    Snoc(b.trips, t);
  }

  /** A trip that is finished at reading a. */
  ghost predicate Ends(t: Trip, a: uint32) {
    t.session.tripDistance <= Read(t.session, a).thisTrip
  }

  /** A sweep raises a flag if and only if a trip that ends had the ongoing distance, or
      the ongoing interval, and lowers none. */
  lemma SweepFlags(b: Batch, a: uint32)
    ensures var o, swept := b.ongoing, Swept(b, a).ongoing;
      && swept.distance == o.distance && swept.tbf == o.tbf
      && (swept.distanceDropped <==>
            o.distanceDropped || exists t :: t in b.trips && Ends(t, a) && t.session.tripDistance == o.distance)
      && (swept.tbfDropped <==>
            o.tbfDropped || exists t :: t in b.trips && Ends(t, a) && t.session.tbfInterval == o.tbf)
  {
    AnyEndsIsExact(b.trips, a, OfDistance(b.ongoing.distance));
    AnyEndsIsExact(b.trips, a, OfInterval(b.ongoing.tbf));
    forall t | t in b.trips ensures exists i :: 0 <= i < |b.trips| && b.trips[i] == t {
    }
  }

  function ReportPlan(b: Batch, a: uint32): Restart {
    if CompletedIds(b.trips, a) == [] then NoRestart else PlanAt(Swept(b, a), a)
  }

  /** The first trip starts the batch; if the modem refuses, the session is dropped. */
  function StartFirst(b: Batch, id: uint32, distance: uint32, tbf: uint32, success: bool): Batch {
    if success then Batch([Trip(id, Session(0, 0, 0, distance, tbf))], SetOngoing(b.ongoing, distance, tbf))
    else b
  }

  /** What the batch is asked for when a trip joins at a queried reading (None: the query
      failed); the flag says whether that is a restart. */
  function JoinPlan(o: Ongoing, distance: uint32, tbf: uint32, reading: Option<uint32>): (bool, uint32, uint32) {
    var left := if reading.Some? then Sub(o.distance, reading.value) else o.distance;
    if distance < left then (true, distance, if tbf < o.tbf then tbf else o.tbf)
    else if tbf < o.tbf then (true, left, tbf)
    else (false, o.distance, o.tbf)
  }

  /** A trip joins; it is not recorded when the query fails. */
  function Join(b: Batch, id: uint32, distance: uint32, tbf: uint32, reading: Option<uint32>): Batch {
    var trips := if reading == None then b.trips
                 else Put(b.trips, Trip(id, Session(reading.value, 0, 0, distance, tbf)));
    var (restart, newDistance, newTbf) := JoinPlan(b.ongoing, distance, tbf, reading);
    if restart then Batch(ResumeTrips(trips), SetOngoing(b.ongoing, newDistance, newTbf))
    else b.(trips := trips)
  }

  /** A trip that is there is taken out before it is finished. */
  function Left(b: Batch, id: uint32): Batch {
    match Find(b.trips, id)
    case None => b
    case Some(s) =>
      Batch(Erase(b.trips, id),
            b.ongoing.(distanceDropped := b.ongoing.distanceDropped || s.tripDistance == b.ongoing.distance,
                       tbfDropped := b.ongoing.tbfDropped || s.tbfInterval == b.ongoing.tbf))
  }

  /** So does a stop, by the trip that is stopped. */
  lemma StopFlags(b: Batch, id: uint32)
    ensures var o, left := b.ongoing, Left(b, id).ongoing;
      && left.distance == o.distance && left.tbf == o.tbf
      && match Find(b.trips, id)
         case None => left == o
         case Some(s) =>
           && (left.distanceDropped <==> o.distanceDropped || s.tripDistance == o.distance)
           && (left.tbfDropped <==> o.tbfDropped || s.tbfInterval == o.tbf)
  {
  }

  // ---------- Runs ----------

  /** Starts, reports and stops at the modem readings that go with them. */
  datatype Event =
    | Start(id: uint32, distance: uint32, tbf: uint32, reading: uint32)
    | Report(reading: uint32)
    | Quit(id: uint32, reading: uint32)

  /** One event, with a modem that does what it is asked. */
  function Step(b: Batch, e: Event): Batch {
    match e
    case Start(id, distance, tbf, a) =>
      if b.trips == [] then StartFirst(b, id, distance, tbf, true) else Join(b, id, distance, tbf, Some(a))
    case Report(a) => Carried(Swept(b, a), ReportPlan(b, a), a, true)
    case Quit(id, a) =>
      if Find(b.trips, id) == None then b else Carried(Left(b, id), PlanAt(Left(b, id), a), a, true)
  }

  function Run(es: seq<Event>): Batch {
    if es == [] then IDLE else Step(Run(es[..|es|-1]), es[|es|-1])
  }

  lemma RunStep(es: seq<Event>, e: Event)
    ensures Run(es + [e]) == Step(Run(es), e)
  {
    assert (es + [e])[..|es|] == es;
  }

  // ---------- Completion reports ----------

  /** What the modem does after a report that leaves trips, whether any has ended or not:
      its next report is in time in exactly these cases. */
  lemma ReportIsLateExactly(b: Batch, a: uint32)
    requires Survivors(b.trips, a) != []
    ensures var s, m := Swept(b, a), SentinelMin(Remainings(Survivors(b.trips, a)));
      InTime(b.ongoing, s.trips, ReportPlan(b, a), a) <==>
        if CompletedIds(b.trips, a) == [] then 0 < Sub(b.ongoing.distance, a) <= m
        else
          || DistanceChanges(s.ongoing, m, a)
          || !TbfChanges(s.ongoing, SentinelMin(Intervals(s.trips)))
          || b.ongoing.distance <= m
  {
    var s := Swept(b, a);
    SurvivorsAreSwept(b.trips, a);
    if CompletedIds(b.trips, a) == [] {
      LeastLeftLater(s.trips, a, a);
      NotLateUpToNearest(s.trips, a, Sub(b.ongoing.distance, a));
    } else {
      SweptDecisionIsLateExactly(s.ongoing, s.trips, SentinelMin(Intervals(s.trips)), a);
    }
  }

  /** A report at the distance asked for: the modem is left alone exactly when no trip has
      ended, and if one has, it is asked for the nearest of those that stay. */
  lemma FullReportIsInTime(b: Batch, a: uint32)
    requires a == b.ongoing.distance
    ensures ReportPlan(b, a) == NoRestart <==> CompletedIds(b.trips, a) == []
    ensures CompletedIds(b.trips, a) != [] && Survivors(b.trips, a) != [] ==>
      && ReportPlan(b, a).RestartWith?
      && AsksForNearest(Survivors(b.trips, a), a, ReportPlan(b, a).distance)
  {
    var trips := Survivors(b.trips, a);
    if CompletedIds(b.trips, a) != [] && trips != [] {
      SurvivorsAreSwept(b.trips, a);
      LeastLeftLater(trips, a, a);
      MinRemainingIsNearest(trips, a);
    }
  }

  // ---------- Runs that go wrong ----------

  /** A run in which a queried decision is late. Two trips, of 60 and 200; the first, which
      set distance and interval, is stopped at 20. The modem is asked for 200 more, and 180
      are left. */
  lemma StoppedTripMakesLate()
    ensures var b := Run([Start(1, 60, 5, 0), Start(2, 200, 10, 0)]);
            var left := Left(b, 1);
      && Find(b.trips, 1).Some? && left.trips == [Trip(2, Session(0, 0, 0, 200, 10))]
      && PlanAt(left, 20) == RestartWith(200, 10)
      && LeastLeft(left.trips, 20) == 180 && !NotLate(left.trips, 20, 200)
  {
    var e1, e2 := Start(1, 60, 5, 0), Start(2, 200, 10, 0);
    RunStep([], e1);
    RunStep([e1], e2);
    assert [] + [e1] == [e1] && [e1] + [e2] == [e1, e2];
    var t1, t2 := Trip(1, Session(0, 0, 0, 60, 5)), Trip(2, Session(0, 0, 0, 200, 10));
    assert Run([e1]) == Batch([t1], Ongoing(60, 5, false, false));
    assert Put([t1], t2) == [t1] + Put([], t2) == [t1, t2] by {
      assert [t1][1..] == [];
    }
    assert [t1, t2][1..] == [t2];
    assert Remainings([t2]) == [200] && Intervals([t2]) == [10];
    assert SentinelMin([200]) == 200 && SentinelMin([10]) == 10;
    NotLateUpToNearest([t2], 20, 200);
  }

  /** Trips of 100 at interval 10 and of 300 at interval 5, which starts at reading a. */
  lemma TwoTripsRun(a: uint32)
    requires a < 100
    ensures Run([Start(1, 100, 10, 0), Start(2, 300, 5, a)]) ==
      Batch([Trip(1, Session(0, 0, 0, 100, 10)), Trip(2, Session(0, 0, 0, 300, 5))],
            Ongoing(100 - a, 5, false, false))
  {
    var e1, e2 := Start(1, 100, 10, 0), Start(2, 300, 5, a);
    RunStep([], e1);
    RunStep([e1], e2);
    assert [] + [e1] == [e1] && [e1] + [e2] == [e1, e2];
    var t1, t2 := Trip(1, Session(0, 0, 0, 100, 10)), Trip(2, Session(a, 0, 0, 300, 5));
    assert Run([e1]) == Batch([t1], Ongoing(100, 10, false, false));
    PutAfter(t1, t2);
    assert ResumeTrips([t1, t2]) == [t1, Trip(2, Session(0, 0, 0, 300, 5))];
  }

  lemma PutAfter(t: Trip, u: Trip)
    requires t.id < u.id
    ensures Put([t], u) == [t, u]
  {
    assert [t][1..] == [];
    assert [t] + Put([], u) == [t, u];
  }

  /** A run in which a decision for the interval alone is late. Trips of 100 and 300; the
      second, which set the interval, is stopped at 60. The modem is asked for 100 again,
      and 40 are left. */
  lemma IntervalRestartIsLate()
    ensures var b := Run([Start(1, 100, 10, 0), Start(2, 300, 5, 0)]);
            var left := Left(b, 2);
      && Find(b.trips, 2).Some? && left.trips == [Trip(1, Session(0, 0, 0, 100, 10))]
      && PlanAt(left, 60) == RestartWith(100, 10)
      && LeastLeft(left.trips, 60) == 40 && !NotLate(left.trips, 60, 100)
  {
    var u1, u2 := Trip(1, Session(0, 0, 0, 100, 10)), Trip(2, Session(0, 0, 0, 300, 5));
    TwoTripsRun(0);
    assert [u1, u2][1..] == [u2] && [u2][1..] == [];
    assert Erase([u1, u2], 2) == [u1] + Erase([u2], 2) == [u1];
    assert Remainings([u1]) == [100] && Intervals([u1]) == [10];
    assert SentinelMin([100]) == 100 && SentinelMin([10]) == 10;
    NotLateUpToNearest([u1], 60, 100);
  }

  /** Runs in which the modem is not asked again. The trip of 300 joins at a for its
      interval; the restart forgets a and asks for what the modem had left. When it reports
      that, no trip has ended, and the trip of 100 still has a to go. */
  lemma ModemStaysIdle(a: uint32)
    requires 0 < a < 100
    ensures var b := Run([Start(1, 100, 10, 0), Start(2, 300, 5, a)]);
      && b.ongoing.distance == 100 - a
      && var all := b.ongoing.distance;
      && CompletedIds(b.trips, all) == [] && ReportPlan(b, all) == NoRestart
      && Survivors(b.trips, all) != [] && LeastLeft(b.trips, all) == a
      && !InTime(b.ongoing, Survivors(b.trips, all), NoRestart, all)
  {
    TwoTripsRun(a);
    var t1, t2 := Trip(1, Session(0, 0, 0, 100, 10)), Trip(2, Session(0, 0, 0, 300, 5));
    ReadFresh(t1.session, 100 - a);
    ReadFresh(t2.session, 100 - a);
    TwoStayIdle(t1, t2, Ongoing(100 - a, 5, false, false));
  }

  lemma TwoStayIdle(t: Trip, u: Trip, o: Ongoing)
    requires !Finished(Read(t.session, o.distance)) && !Finished(Read(u.session, o.distance))
    requires LeftAt(t.session, o.distance) <= LeftAt(u.session, o.distance)
    ensures var b := Batch([t, u], o);
      && CompletedIds(b.trips, o.distance) == [] && ReportPlan(b, o.distance) == NoRestart
      && Survivors(b.trips, o.distance) != [] && LeastLeft(b.trips, o.distance) == LeftAt(t.session, o.distance)
      && !InTime(o, Survivors(b.trips, o.distance), NoRestart, o.distance)
  {
    TwoGoOn(t, u, o.distance);
    LeastOfTwo(t, u, o.distance);
  }

  lemma LeastOfTwo(t: Trip, u: Trip, a: uint32)
    requires LeftAt(t.session, a) <= LeftAt(u.session, a)
    ensures LeastLeft([t, u], a) == LeftAt(t.session, a)
  {
    assert [t, u][..1] == [t];
    assert LeastLeft([t], a) == LeftAt(t.session, a);
  }

  lemma ReadFresh(s: Session, a: uint32)
    requires s.ongoingBatch == s.onRestart == 0
    ensures Read(s, a) == s.(thisTrip := a)
  {
  }

  lemma TwoGoOn(t: Trip, u: Trip, a: uint32)
    requires !Finished(Read(t.session, a)) && !Finished(Read(u.session, a))
    ensures CompletedIds([t, u], a) == []
    ensures Survivors([t, u], a) == [t.(session := Read(t.session, a)), u.(session := Read(u.session, a))]
  {
    assert [t, u][..1] == [t] && [t][..0] == [];
    assert CompletedIds([t], a) == CompletedIds([], a) + [];
    assert Survivors([t], a) == Survivors([], a) + [t.(session := Read(t.session, a))];
  }

  lemma FirstRun(id: uint32, distance: uint32, tbf: uint32)
    ensures Run([Start(id, distance, tbf, 0)]) ==
      Batch([Trip(id, Session(0, 0, 0, distance, tbf))], Ongoing(distance, tbf, false, false))
  {
    RunStep([], Start(id, distance, tbf, 0));
    assert [] + [Start(id, distance, tbf, 0)] == [Start(id, distance, tbf, 0)];
  }

  /** A start that does not restart the modem. */
  lemma JoinRun(es: seq<Event>, e: Event)
    requires e.Start? && Run(es).trips != []
    requires Sub(Run(es).ongoing.distance, e.reading) <= e.distance && Run(es).ongoing.tbf <= e.tbf
    ensures Run(es + [e]) ==
      Run(es).(trips := Put(Run(es).trips, Trip(e.id, Session(e.reading, 0, 0, e.distance, e.tbf))))
  {
    RunStep(es, e);
  }

  lemma ThreeTripsRun()
    ensures Run([Start(1, 100, 0, 0), Start(2, 100, 5000, 0), Start(3, 300, 0, 0)]) ==
      Batch([Trip(1, Session(0, 0, 0, 100, 0)), Trip(2, Session(0, 0, 0, 100, 5000)),
             Trip(3, Session(0, 0, 0, 300, 0))], Ongoing(100, 0, false, false))
  {
    var e1, e2, e3 := Start(1, 100, 0, 0), Start(2, 100, 5000, 0), Start(3, 300, 0, 0);
    FirstRun(1, 100, 0);
    JoinRun([e1], e2);
    PutAfter(Trip(1, Session(0, 0, 0, 100, 0)), Trip(2, Session(0, 0, 0, 100, 5000)));
    assert [e1] + [e2] == [e1, e2] && [e1, e2] + [e3] == [e1, e2, e3];
    JoinRun([e1, e2], e3);
    PutLast(Trip(1, Session(0, 0, 0, 100, 0)), Trip(2, Session(0, 0, 0, 100, 5000)),
            Trip(3, Session(0, 0, 0, 300, 0)));
  }

  lemma PutLast(t: Trip, u: Trip, v: Trip)
    requires t.id < u.id < v.id
    ensures Put([t, u], v) == [t, u, v]
  {
    PutAfter(u, v);
    assert [t, u][1..] == [u] && [t] + [u, v] == [t, u, v];
  }

  lemma LastErased(t: Trip, u: Trip, v: Trip)
    requires t.id < u.id < v.id
    ensures Find([t, u, v], v.id) == Some(v.session) && Erase([t, u, v], v.id) == [t, u]
  {
    assert [t, u, v][1..] == [u, v] && [u, v][1..] == [v] && [v][1..] == [];
    assert Find([u, v], v.id) == Find([v], v.id) == Some(v.session);
    assert Erase([u, v], v.id) == [u] + Erase([v], v.id) == [u];
    assert [t] + [u] == [t, u];
  }

  /** A run in which a session that wants interval zero gets 5000, once another one that
      wanted it has been stopped. */
  lemma ZeroIntervalIsLost()
    ensures var b := Run([Start(1, 100, 0, 0), Start(2, 100, 5000, 0), Start(3, 300, 0, 0)]);
            var left := Left(b, 3);
      && Find(b.trips, 3).Some?
      && left.trips == [Trip(1, Session(0, 0, 0, 100, 0)), Trip(2, Session(0, 0, 0, 100, 5000))]
      && PlanAt(left, 0) == RestartWith(100, 5000)
  {
    ThreeTripsRun();
    var t1, t2 := Trip(1, Session(0, 0, 0, 100, 0)), Trip(2, Session(0, 0, 0, 100, 5000));
    LastErased(t1, t2, Trip(3, Session(0, 0, 0, 300, 0)));
    TwoOfEqualDistance(t1, t2);
  }

  lemma TwoOfEqualDistance(t: Trip, u: Trip)
    requires t.session.thisTrip == u.session.thisTrip == 0 && t.session.tripDistance == u.session.tripDistance
    ensures SentinelMin(Remainings([t, u])) == t.session.tripDistance
    ensures t.session.tbfInterval == 0 ==> SentinelMin(Intervals([t, u])) == u.session.tbfInterval
  {
    var d, x, y := t.session.tripDistance, t.session.tbfInterval, u.session.tbfInterval;
    assert Remainings([t, u]) == [d, d] && Intervals([t, u]) == [x, y];
    assert [d, d][..1] == [d] && [x, y][..1] == [x];
    assert SentinelMin([d]) == d && SentinelMin([x]) == x;
  }
}
