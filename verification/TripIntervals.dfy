/** How densely the modem reports fixes over whole runs: at most at the interval of every
    session that is listed, and when it does not. */
module TripIntervals {
  import opened Options
  import opened Sequences
  import opened TripDistance
  import opened TripRuns
  import opened TripsOnTime

  /** The modem runs at most at the interval of every listed session. */
  ghost predicate Covers(b: Batch) {
    forall t :: t in b.trips ==> b.ongoing.tbf <= t.session.tbfInterval
  }

  function Shorter(x: uint32, y: uint32): uint32 {
    if x < y then x else y
  }

  // ---------- Starts ----------

  /** However a trip joins, with whatever distance and whether the query succeeds or not,
      the modem then runs at the shorter of its interval before and the trip's. */
  lemma JoinInterval(b: Batch, id: uint32, distance: uint32, tbf: uint32, reading: Option<uint32>)
    ensures Join(b, id, distance, tbf, reading).ongoing.tbf == Shorter(b.ongoing.tbf, tbf)
  {
  }

  /** A join whose query fails: the trip is not listed, but the modem is asked for the
      shorter of its whole distance and the trip's, and is restarted if either that or the
      interval is shorter than before. */
  lemma UnqueriedJoin(b: Batch, id: uint32, distance: uint32, tbf: uint32)
    ensures var after := Join(b, id, distance, tbf, None);
      && after.ongoing.distance == Shorter(b.ongoing.distance, distance)
      && after.trips == if after.ongoing == b.ongoing then b.trips else ResumeTrips(b.trips)
  {
  }

  lemma {:induction false} PutIsFrom(trips: seq<Trip>, t: Trip)
    ensures forall u :: u in Put(trips, t) ==> u == t || u in trips
  {
    if trips != [] && trips[0].id < t.id {
      PutIsFrom(trips[1..], t);
    }
  }

  lemma ResumeKeepsIntervals(trips: seq<Trip>, d: uint32)
    requires forall t :: t in trips ==> d <= t.session.tbfInterval
    ensures forall t :: t in ResumeTrips(trips) ==> d <= t.session.tbfInterval
  {
    forall i | 0 <= i < |trips| ensures d <= ResumeTrips(trips)[i].session.tbfInterval {
      assert trips[i] in trips;
    }
  }

  /** If it ran densely enough for all before, it does so then, for the new trip too. */
  lemma JoinCovers(b: Batch, id: uint32, distance: uint32, tbf: uint32, reading: Option<uint32>)
    requires Covers(b)
    ensures Covers(Join(b, id, distance, tbf, reading))
  {
    var trips := if reading == None then b.trips
                 else Put(b.trips, Trip(id, Session(reading.value, 0, 0, distance, tbf)));
    if reading.Some? {
      PutIsFrom(b.trips, Trip(id, Session(reading.value, 0, 0, distance, tbf)));
    }
    ResumeKeepsIntervals(trips, Shorter(b.ongoing.tbf, tbf));
  }

  /** A start in any run. */
  lemma StartInterval(es: seq<Event>, e: Event)
    requires e.Start?
    ensures var b := Run(es);
      Run(es + [e]).ongoing.tbf == if b.trips == [] then e.tbf else Shorter(b.ongoing.tbf, e.tbf)
    ensures Covers(Run(es)) ==> Covers(Run(es + [e]))
  {
    RunStep(es, e);
    var b := Run(es);
    if b.trips != [] {
      JoinInterval(b, e.id, e.distance, e.tbf, Some(e.reading));
      if Covers(b) {
        JoinCovers(b, e.id, e.distance, e.tbf, Some(e.reading));
      }
    }
  }

  // ---------- Reports and stops ----------

  /** The sentinel loop does not lose a zero, or the modem runs at zero already for a
      session that is still there. */
  predicate ZeroIsSafe(b: Batch) {
    var xs := Intervals(b.trips);
    0 !in xs || xs[|xs|-1] == 0 || (b.ongoing.tbf == 0 && !b.ongoing.tbfDropped)
  }

  /** When a decision is made, it has to be safe. */
  predicate KeepsDense(b: Batch, e: Event) {
    match e
    case Start(_, _, _, _) => true
    case Report(a) => CompletedIds(b.trips, a) != [] ==> ZeroIsSafe(Swept(b, a))
    case Quit(id, _) => Find(b.trips, id).Some? ==> ZeroIsSafe(Left(b, id))
  }

  lemma CoversIs(b: Batch)
    ensures Covers(b) <==> forall i :: 0 <= i < |b.trips| ==> b.ongoing.tbf <= Intervals(b.trips)[i]
  {
    assert forall i :: 0 <= i < |b.trips| ==> Intervals(b.trips)[i] == b.trips[i].session.tbfInterval;
    if Covers(b) {
      forall i | 0 <= i < |b.trips| ensures b.ongoing.tbf <= Intervals(b.trips)[i] {
        assert b.trips[i] in b.trips;
      }
    }
  }

  /** A decision leaves the modem dense enough exactly when zero is safe. */
  lemma DecisionCovers(b: Batch, a: uint32)
    ensures Covers(Carried(b, PlanAt(b, a), a, true)) <==> ZeroIsSafe(b)
  {
    if b.trips != [] {
      var plan := PlanAt(b, a);
      var after := Carried(b, plan, a, true);
      IntervalIsShortEnough(b.ongoing, b.trips, a);
      CoversIs(after);
      assert after.ongoing.tbf == RunsAt(b.ongoing, plan);
      assert Intervals(after.trips) == Intervals(b.trips);
    }
  }

  lemma SweepKeepsIntervals(b: Batch, a: uint32)
    requires Covers(b)
    ensures Covers(Swept(b, a))
  {
    SweepLeavesUnfinished(b.trips, a);
  }

  lemma StepCoversExactly(b: Batch, e: Event)
    requires Covers(b)
    ensures Covers(Step(b, e)) <==> KeepsDense(b, e)
  {
    match e
    case Start(id, distance, tbf, a) =>
      if b.trips != [] {
        JoinCovers(b, id, distance, tbf, Some(a));
      }
    case Report(a) =>
      SweepKeepsIntervals(b, a);
      DecisionCovers(Swept(b, a), a);
    case Quit(id, a) =>
      DecisionCovers(Left(b, id), a);
  }

  // ---------- All runs ----------

  ghost predicate AlwaysDense(es: seq<Event>) {
    forall n :: 0 <= n <= |es| ==> Covers(After(es, n))
  }

  ghost predicate AllKeepDense(es: seq<Event>) {
    forall n :: 0 <= n < |es| ==> KeepsDense(After(es, n), es[n])
  }

  lemma {:induction false} DenseUpTo(es: seq<Event>, n: nat)
    requires n <= |es| && AllKeepDense(es)
    ensures Covers(After(es, n))
  {
    if n > 0 {
      DenseUpTo(es, n - 1);
      AfterStep(es, n - 1);
      StepCoversExactly(After(es, n - 1), es[n - 1]);
    }
  }

  /** In every run of starts, reports and stops, at whatever readings: the modem runs at
      most at the interval of every listed session throughout if and only if each decision
      that is made on the way is safe for those that want interval zero. */
  lemma EveryRunDenseExactly(es: seq<Event>)
    ensures AlwaysDense(es) <==> AllKeepDense(es)
  {
    if AlwaysDense(es) {
      forall n | 0 <= n < |es| ensures KeepsDense(After(es, n), es[n]) {
        AfterStep(es, n);
        assert Covers(After(es, n)) && Covers(After(es, n + 1));
        StepCoversExactly(After(es, n), es[n]);
      }
    }
    if AllKeepDense(es) {
      forall n | 0 <= n <= |es| ensures Covers(After(es, n)) {
        DenseUpTo(es, n);
      }
    }
  }
}
