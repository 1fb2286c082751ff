/** Whole runs with a modem that reports when it has gone the distance asked for. Which
    of them keep the modem exactly on time: its next report comes when the next trip is
    finished, neither before nor after. */
module TripsOnTime {
  import opened Options
  import opened Sequences
  import opened TripDistance
  import opened TripRuns

  // ---------- The modem's readings ----------

  /** Whether the modem's odometer starts from zero at an event. */
  predicate Restarted(b: Batch, e: Event) {
    match e
    case Start(_, distance, tbf, a) => b.trips == [] || JoinPlan(b.ongoing, distance, tbf, Some(a)).0
    case Report(a) => ReportPlan(b, a) != NoRestart
    case Quit(id, a) => Find(b.trips, id).Some? && PlanAt(Left(b, id), a) != NoRestart
  }

  function ReadingAfter(b: Batch, e: Event): uint32 {
    if Restarted(b, e) then 0 else e.reading
  }

  function Reading(es: seq<Event>): uint32 {
    if es == [] then 0 else ReadingAfter(Run(es[..|es|-1]), es[|es|-1])
  }

  /** The batch, and the reading, after the first n events of a run. */
  function After(es: seq<Event>, n: nat): Batch
    requires n <= |es|
  {
    Run(es[..n])
  }

  function ReadingAt(es: seq<Event>, n: nat): uint32
    requires n <= |es|
  {
    Reading(es[..n])
  }

  /** What can happen next, at reading r: the modem reports when it has gone the distance
      asked for and is queried before; a new session has a new id, and the one that is
      stopped is there. */
  predicate Possible(b: Batch, r: uint32, e: Event) {
    match e
    case Start(id, _, _, a) => b.trips != [] ==> r <= a <= b.ongoing.distance && Find(b.trips, id) == None
    case Report(a) => b.trips != [] && a == b.ongoing.distance
    case Quit(id, a) => r <= a <= b.ongoing.distance && Find(b.trips, id).Some?
  }

  ghost predicate PossibleRun(es: seq<Event>) {
    forall n :: 0 <= n < |es| ==> Possible(After(es, n), ReadingAt(es, n), es[n])
  }

  /** The modem, now at reading r, reports next exactly when some trip is finished. */
  ghost predicate OnTime(b: Batch, r: uint32) {
    b.trips == [] || (r <= b.ongoing.distance && AsksForNearest(b.trips, r, b.ongoing.distance - r))
  }

  // ---------- The events that keep it on time ----------

  /** A start does, unless it restarts the modem for the interval alone and no session was
      last read with what the modem still had to go. A report always does. */
  ghost predicate Fits(b: Batch, e: Event) {
    match e
    case Start(_, distance, tbf, a) =>
      var left := Sub(b.ongoing.distance, a);
      b.trips == [] || distance <= left || b.ongoing.tbf <= tbf || SomeRemains(b.trips, left)
    case Report(_) => true
    case Quit(id, a) => Left(b, id).trips == [] || StopFits(Left(b, id), a)
  }

  /** A stop does in these cases. The modem is asked for the least remainder of the last
      readings, and no trip has gone further since than it was ahead of that; or it is asked
      for all its distance again, and the nearest trip has that to go; or it just goes on,
      and a trip that stays ends where it is going. */
  ghost predicate StopFits(b: Batch, a: uint32)
    requires b.trips != []
  {
    var left, m := Sub(b.ongoing.distance, a), SentinelMin(Remainings(b.trips));
    if (b.ongoing.distanceDropped || left == 0) && m != 0 then
      forall t :: t in b.trips ==> Since(t.session, a) <= Remaining(t.session) - m
    else if TbfChanges(b.ongoing, SentinelMin(Intervals(b.trips))) then LeastLeft(b.trips, a) == b.ongoing.distance
    else SomeLeft(b.trips, a, left)
  }

  /** What was travelled since the session was read. */
  function Since(s: Session, a: uint32): uint32 {
    Sub(Read(s, a).thisTrip, s.thisTrip)
  }

  ghost predicate SomeLeft(trips: seq<Trip>, a: uint32, d: uint32) {
    exists t :: t in trips && LeftAt(t.session, a) == d
  }

  ghost predicate SomeRemains(trips: seq<Trip>, d: uint32) {
    exists t :: t in trips && Remaining(t.session) == d
  }

  // ---------- Sessions ----------

  /** A session that, by the adapter's account, has not passed its distance at reading r
      and was last read before. */
  predicate Tracked(s: Session, r: uint32) {
    && s.ongoingBatch <= r
    && 0 <= s.thisTrip - s.onRestart <= r - s.ongoingBatch
    && s.onRestart + (r - s.ongoingBatch) <= s.tripDistance
  }

  lemma TrackedLeft(s: Session, r: uint32)
    requires Tracked(s, r)
    ensures Read(s, r).thisTrip == s.onRestart + (r - s.ongoingBatch)
    ensures LeftAt(s, r) == s.tripDistance - s.onRestart - (r - s.ongoingBatch)
    ensures LeftAt(s, r) <= Remaining(s) == s.tripDistance - s.thisTrip
  {
  }

  lemma Rebased(s: Session, a: uint32)
    requires Tracked(s, a)
    ensures Tracked(Rebase(s, a), 0) && LeftAt(Rebase(s, a), 0) == LeftAt(s, a)
  {
    TrackedLeft(s, a);
    TrackedLeft(Rebase(s, a), 0);
  }

  lemma Resumed(s: Session, a: uint32)
    requires Tracked(s, a)
    ensures Tracked(Resume(s), 0) && LeftAt(Resume(s), 0) == Remaining(s)
  {
    TrackedLeft(s, a);
    TrackedLeft(Resume(s), 0);
  }

  // ---------- Batches ----------

  ghost predicate AllTracked(trips: seq<Trip>, r: uint32) {
    forall t :: t in trips ==> Tracked(t.session, r)
  }

  ghost predicate IsLeast(trips: seq<Trip>, a: uint32, m: uint32) {
    (forall t :: t in trips ==> m <= LeftAt(t.session, a)) && exists t :: t in trips && LeftAt(t.session, a) == m
  }

  lemma LeastIs(trips: seq<Trip>, a: uint32, m: uint32)
    requires trips != []
    ensures IsLeast(trips, a, m) <==> m == LeastLeft(trips, a)
  {
    LeastLeftIs(trips, a);
    var i :| 0 <= i < |trips| && LeastLeft(trips, a) == LeftAt(trips[i].session, a);
    assert trips[i] in trips;
  }

  /** On time, in numbers. */
  ghost predicate Nearest(b: Batch, r: uint32) {
    b.trips == [] || (r <= b.ongoing.distance && LeastLeft(b.trips, r) == b.ongoing.distance - r)
  }

  lemma OnTimeIsNearest(b: Batch, r: uint32)
    ensures OnTime(b, r) <==> Nearest(b, r)
  {
    if b.trips != [] && r <= b.ongoing.distance {
      AsksForLeast(b.trips, r, b.ongoing.distance - r);
    }
  }

  lemma AsksForLeast(trips: seq<Trip>, a: uint32, d: uint32)
    requires trips != []
    ensures AsksForNearest(trips, a, d) <==> d == LeastLeft(trips, a)
  {
    LeastLeftIsNearest(trips, a);
    var m := LeastLeft(trips, a);
    if AsksForNearest(trips, a, d) {
      assert SomeFinished(trips, a, m) <==> d <= m;
      assert NoWrap(trips, a, d);
      assert SomeFinished(trips, a, d);
    }
  }

  /** What a tracked session has to go. */
  function ToGo(s: Session, r: uint32): int {
    s.tripDistance - s.onRestart - (r - s.ongoingBatch)
  }

  ghost predicate LeastToGo(trips: seq<Trip>, r: uint32, m: uint32) {
    (forall t :: t in trips ==> m <= ToGo(t.session, r)) && exists t :: t in trips && ToGo(t.session, r) == m
  }

  lemma LeastIsToGo(trips: seq<Trip>, r: uint32, m: uint32)
    requires trips != [] && AllTracked(trips, r)
    ensures m == LeastLeft(trips, r) <==> LeastToGo(trips, r, m)
  {
    LeastIs(trips, r, m);
    forall t | t in trips ensures LeftAt(t.session, r) == ToGo(t.session, r) {
      TrackedLeft(t.session, r);
    }
  }

  lemma Advance(trips: seq<Trip>, r: uint32, a: uint32, m: uint32)
    requires AllTracked(trips, r) && LeastToGo(trips, r, m) && 0 <= a - r <= m
    ensures AllTracked(trips, a) && LeastToGo(trips, a, m - (a - r))
  {
    var next :| next in trips && ToGo(next.session, r) == m;
    assert ToGo(next.session, a) == m - (a - r);
  }

  lemma SubIs(x: uint32, y: uint32)
    requires y <= x
    ensures Sub(x, y) == x - y
  {
  }

  /** The modem goes on. */
  lemma AdvanceAll(b: Batch, r: uint32, a: uint32)
    requires b.trips != [] && AllTracked(b.trips, r) && Nearest(b, r) && r <= a <= b.ongoing.distance
    ensures AllTracked(b.trips, a) && LeastLeft(b.trips, a) == Sub(b.ongoing.distance, a) == b.ongoing.distance - a
  {
    SubIs(b.ongoing.distance, a);
    LeastIsToGo(b.trips, r, b.ongoing.distance - r);
    Advance(b.trips, r, a, b.ongoing.distance - r);
    LeastIsToGo(b.trips, a, b.ongoing.distance - a);
  }

  lemma RebaseAllTracked(trips: seq<Trip>, a: uint32)
    requires trips != [] && AllTracked(trips, a)
    ensures AllTracked(RebaseTrips(trips, a), 0)
    ensures LeastLeft(RebaseTrips(trips, a), 0) == LeastLeft(trips, a)
  {
    var rebased, m := RebaseTrips(trips, a), LeastLeft(trips, a);
    LeastLeftIs(trips, a);
    forall i | 0 <= i < |trips|
      ensures Tracked(rebased[i].session, 0) && LeftAt(rebased[i].session, 0) == LeftAt(trips[i].session, a)
    {
      assert trips[i] in trips;
      Rebased(trips[i].session, a);
    }
    LeastIs(rebased, 0, m);
  }

  // ---------- A report ----------

  lemma SurvivorsTracked(trips: seq<Trip>, a: uint32)
    requires AllTracked(trips, a)
    ensures AllTracked(Survivors(trips, a), a)
  {
    SweepLeavesUnfinished(trips, a);
    forall u | u in Survivors(trips, a) ensures Tracked(u.session, a) {
      var i :| 0 <= i < |trips| && u == trips[i].(session := Read(trips[i].session, a));
      assert trips[i] in trips;
      TrackedLeft(trips[i].session, a);
    }
  }

  /** A modem on time never stays idle: its report ends a trip. */
  lemma ReportEndsTrip(b: Batch, r: uint32)
    requires b.trips != [] && AllTracked(b.trips, r) && Nearest(b, r)
    ensures CompletedIds(b.trips, b.ongoing.distance) != []
  {
    var a := b.ongoing.distance;
    AdvanceAll(b, r, a);
    LeastIs(b.trips, a, 0);
    var t :| t in b.trips && LeftAt(t.session, a) == 0;
    TrackedLeft(t.session, a);
    SweepIsExact(b.trips, a, t);
  }

  lemma ReportKeeps(b: Batch, r: uint32, a: uint32)
    requires AllTracked(b.trips, r) && Nearest(b, r) && Possible(b, r, Report(a))
    ensures var c := Step(b, Report(a));
      AllTracked(c.trips, ReadingAfter(b, Report(a))) && Nearest(c, ReadingAfter(b, Report(a)))
  {
    AdvanceAll(b, r, a);
    ReportEndsTrip(b, r);
    var trips := Survivors(b.trips, a);
    SurvivorsTracked(b.trips, a);
    SurvivorsAreSwept(b.trips, a);
    if trips != [] {
      LeastLeftLater(trips, a, a);
      RebaseAllTracked(trips, a);
    }
  }

  // ---------- A start ----------

  lemma {:induction false} PutHas(trips: seq<Trip>, t: Trip)
    requires Find(trips, t.id) == None
    ensures forall u :: u in Put(trips, t) <==> u == t || u in trips
  {
    if trips != [] && trips[0].id < t.id {
      PutHas(trips[1..], t);
      assert trips == [trips[0]] + trips[1..];
    }
  }

  lemma JoinGoesOn(trips: seq<Trip>, joiner: Trip, a: uint32)
    requires trips != [] && AllTracked(trips, a) && Tracked(joiner.session, a)
    requires LeastLeft(trips, a) <= LeftAt(joiner.session, a) && Find(trips, joiner.id) == None
    ensures AllTracked(Put(trips, joiner), a) && LeastLeft(Put(trips, joiner), a) == LeastLeft(trips, a)
  {
    var m := LeastLeft(trips, a);
    PutHas(trips, joiner);
    LeastIs(trips, a, m);
    assert joiner in Put(trips, joiner);
    LeastIs(Put(trips, joiner), a, m);
  }

  lemma ResumeAllTracked(trips: seq<Trip>, a: uint32, d: uint32)
    requires trips != [] && AllTracked(trips, a)
    requires forall t :: t in trips ==> d <= LeftAt(t.session, a)
    ensures AllTracked(ResumeTrips(trips), 0)
    ensures d == LeastLeft(ResumeTrips(trips), 0) <==> SomeRemains(trips, d)
  {
    var resumed := ResumeTrips(trips);
    forall i | 0 <= i < |trips|
      ensures Tracked(resumed[i].session, 0) && d <= LeftAt(resumed[i].session, 0) == Remaining(trips[i].session)
    {
      assert trips[i] in trips;
      Resumed(trips[i].session, a);
      TrackedLeft(trips[i].session, a);
    }
    LeastIs(resumed, 0, d);
    if SomeRemains(trips, d) {
      var i :| 0 <= i < |trips| && Remaining(trips[i].session) == d;
      assert resumed[i] in resumed;
    }
  }

  /** Restarted for d, the modem is on time if the new trip, or one as it was read last,
      has that to go. */
  lemma JoinRestarts(trips: seq<Trip>, joiner: Trip, a: uint32, d: uint32)
    requires trips != [] && AllTracked(trips, a) && Find(trips, joiner.id) == None
    requires joiner.session.ongoingBatch == a && joiner.session.thisTrip == joiner.session.onRestart == 0
    requires d <= LeastLeft(trips, a) && d <= joiner.session.tripDistance
    ensures var resumed := ResumeTrips(Put(trips, joiner));
      && AllTracked(resumed, 0)
      && (d == LeastLeft(resumed, 0) <==> d == joiner.session.tripDistance || SomeRemains(trips, d))
  {
    PutHas(trips, joiner);
    LeastIs(trips, a, LeastLeft(trips, a));
    TrackedLeft(joiner.session, a);
    assert joiner in Put(trips, joiner);
    ResumeAllTracked(Put(trips, joiner), a, d);
  }

  lemma RestartFits(b: Batch, e: Event)
    requires e.Start? && b.trips != [] && Restarted(b, e) && AllTracked(b.trips, e.reading)
    requires LeastLeft(b.trips, e.reading) == Sub(b.ongoing.distance, e.reading) && Find(b.trips, e.id) == None
    ensures AllTracked(Step(b, e).trips, 0)
    ensures Nearest(Step(b, e), 0) <==> Fits(b, e)
  {
    var left := Sub(b.ongoing.distance, e.reading);
    StartIs(b, e);
    JoinRestarts(b.trips, Trip(e.id, Session(e.reading, 0, 0, e.distance, e.tbf)), e.reading,
                 if e.distance < left then e.distance else left);
  }

  /** What a start into a batch does. */
  lemma StartIs(b: Batch, e: Event)
    requires e.Start? && b.trips != []
    ensures var left, c := Sub(b.ongoing.distance, e.reading), Step(b, e);
            var joined := Put(b.trips, Trip(e.id, Session(e.reading, 0, 0, e.distance, e.tbf)));
      && (Restarted(b, e) <==> e.distance < left || e.tbf < b.ongoing.tbf)
      && c.trips == (if Restarted(b, e) then ResumeTrips(joined) else joined)
      && c.ongoing.distance ==
           (if !Restarted(b, e) then b.ongoing.distance else if e.distance < left then e.distance else left)
  {
  }

  lemma NoRestartFits(b: Batch, e: Event)
    requires e.Start? && b.trips != [] && !Restarted(b, e) && AllTracked(b.trips, e.reading)
    requires LeastLeft(b.trips, e.reading) == Sub(b.ongoing.distance, e.reading) && Find(b.trips, e.id) == None
    ensures AllTracked(Step(b, e).trips, e.reading) && Fits(b, e)
    ensures LeastLeft(Step(b, e).trips, e.reading) == Sub(b.ongoing.distance, e.reading)
    ensures Step(b, e).ongoing == b.ongoing
  {
    var joiner := Trip(e.id, Session(e.reading, 0, 0, e.distance, e.tbf));
    StartIs(b, e);
    TrackedLeft(joiner.session, e.reading);
    JoinGoesOn(b.trips, joiner, e.reading);
  }

  lemma FirstFits(b: Batch, e: Event)
    requires e.Start? && b.trips == []
    ensures AllTracked(Step(b, e).trips, 0) && Nearest(Step(b, e), 0) && Fits(b, e) && Restarted(b, e)
  {
    var t := Step(b, e).trips[0];
    TrackedLeft(t.session, 0);
  }

  lemma StartFitsExactly(b: Batch, r: uint32, e: Event)
    requires e.Start? && AllTracked(b.trips, r) && Nearest(b, r) && Possible(b, r, e)
    ensures AllTracked(Step(b, e).trips, ReadingAfter(b, e))
    ensures Nearest(Step(b, e), ReadingAfter(b, e)) <==> Fits(b, e)
  {
    if b.trips == [] {
      FirstFits(b, e);
    } else {
      AdvanceAll(b, r, e.reading);
      if Restarted(b, e) {
        RestartFits(b, e);
      } else {
        NoRestartFits(b, e);
      }
    }
  }

  // ---------- A stop ----------

  lemma {:induction false} EraseHas(trips: seq<Trip>, id: uint32)
    ensures forall u :: u in Erase(trips, id) ==> u in trips
  {
    if trips != [] && trips[0].id != id {
      EraseHas(trips[1..], id);
    }
  }

  lemma {:induction false} SentinelMinIsIn(xs: seq<uint32>)
    requires xs != []
    ensures SentinelMin(xs) in xs
  {
    if |xs| > 1 {
      SentinelMinIsIn(xs[..|xs|-1]);
    }
  }

  /** No trip that stays has less to go than the modem, so a distance only changes if its
      trip is gone or the modem is there. */
  lemma DistanceStays(trips: seq<Trip>, o: Ongoing, a: uint32)
    requires trips != [] && AllTracked(trips, a) && Sub(o.distance, a) <= LeastLeft(trips, a)
    ensures var m := SentinelMin(Remainings(trips));
      DistanceChanges(o, m, a) <==> (o.distanceDropped || Sub(o.distance, a) == 0) && m != 0
  {
    var rs := Remainings(trips);
    SentinelMinIsIn(rs);
    var i :| 0 <= i < |rs| && rs[i] == SentinelMin(rs);
    assert trips[i] in trips;
    TrackedLeft(trips[i].session, a);
    LeastLeftIs(trips, a);
  }

  lemma StayTracked(b: Batch, id: uint32, r: uint32, a: uint32)
    requires AllTracked(b.trips, r) && Nearest(b, r) && Possible(b, r, Quit(id, a))
    ensures var stay := Left(b, id).trips;
      AllTracked(stay, a) && (stay != [] ==> Sub(b.ongoing.distance, a) <= LeastLeft(stay, a))
  {
    AdvanceAll(b, r, a);
    LeastIs(b.trips, a, LeastLeft(b.trips, a));
    EraseHas(b.trips, id);
    var stay := Left(b, id).trips;
    if stay != [] {
      LeastIs(stay, a, LeastLeft(stay, a));
    }
  }

  /** The distance that the modem goes after a stop. */
  function Picked(b: Batch, a: uint32): uint32 {
    var left, m := Sub(b.ongoing.distance, a), SentinelMin(Remainings(b.trips));
    if (b.ongoing.distanceDropped || left == 0) && m != 0 then m
    else if TbfChanges(b.ongoing, SentinelMin(Intervals(b.trips))) then b.ongoing.distance
    else left
  }

  lemma PlanPicks(b: Batch, a: uint32)
    requires b.trips != [] && AllTracked(b.trips, a) && Sub(b.ongoing.distance, a) <= LeastLeft(b.trips, a)
    ensures var plan := PlanAt(b, a);
      plan != Stop && Picked(b, a) == if plan == NoRestart then Sub(b.ongoing.distance, a) else plan.distance
  {
    DistanceStays(b.trips, b.ongoing, a);
  }

  lemma SinceIs(s: Session, a: uint32)
    requires Tracked(s, a)
    ensures LeftAt(s, a) == Remaining(s) - Since(s, a)
  {
    TrackedLeft(s, a);
    SubIs(Read(s, a).thisTrip, s.thisTrip);
  }

  /** The least remainder of the last readings is the nearest one at a. */
  lemma LeastRemainderIsNearest(trips: seq<Trip>, a: uint32)
    requires trips != [] && AllTracked(trips, a)
    ensures var m := SentinelMin(Remainings(trips));
      LeastLeft(trips, a) == m <==> forall t :: t in trips ==> Since(t.session, a) <= Remaining(t.session) - m
  {
    var rs := Remainings(trips);
    var m := SentinelMin(rs);
    SentinelMinIsIn(rs);
    var i :| 0 <= i < |rs| && rs[i] == m;
    forall t | t in trips ensures LeftAt(t.session, a) == Remaining(t.session) - Since(t.session, a) {
      SinceIs(t.session, a);
    }
    assert trips[i] in trips;
    LeastIs(trips, a, m);
  }

  lemma StopFitsExactly(b: Batch, a: uint32)
    requires b.trips != [] && AllTracked(b.trips, a) && Sub(b.ongoing.distance, a) <= LeastLeft(b.trips, a)
    ensures StopFits(b, a) <==> LeastLeft(b.trips, a) == Picked(b, a)
  {
    LeastRemainderIsNearest(b.trips, a);
    LeastIs(b.trips, a, Sub(b.ongoing.distance, a));
    LeastIs(b.trips, a, LeastLeft(b.trips, a));
  }

  lemma CarriedIsNearest(b: Batch, plan: Restart, a: uint32)
    requires b.trips != [] && AllTracked(b.trips, a) && a <= b.ongoing.distance && plan != Stop
    ensures var c, r := Carried(b, plan, a, true), if plan == NoRestart then a else 0;
      && AllTracked(c.trips, r)
      && (Nearest(c, r) <==>
            LeastLeft(b.trips, a) == if plan == NoRestart then b.ongoing.distance - a else plan.distance)
  {
    RebaseAllTracked(b.trips, a);
  }

  lemma QuitFitsExactly(b: Batch, r: uint32, e: Event)
    requires e.Quit? && AllTracked(b.trips, r) && Nearest(b, r) && Possible(b, r, e)
    ensures AllTracked(Step(b, e).trips, ReadingAfter(b, e))
    ensures Nearest(Step(b, e), ReadingAfter(b, e)) <==> Fits(b, e)
  {
    var Quit(id, a) := e;
    StayTracked(b, id, r, a);
    var left := Left(b, id);
    if left.trips != [] {
      SubIs(left.ongoing.distance, a);
      StopFitsExactly(left, a);
      PlanPicks(left, a);
      CarriedIsNearest(left, PlanAt(left, a), a);
    }
  }

  // ---------- All runs ----------

  lemma StepFitsExactly(b: Batch, r: uint32, e: Event)
    requires AllTracked(b.trips, r) && OnTime(b, r) && Possible(b, r, e)
    ensures AllTracked(Step(b, e).trips, ReadingAfter(b, e))
    ensures OnTime(Step(b, e), ReadingAfter(b, e)) <==> Fits(b, e)
  {
    OnTimeIsNearest(b, r);
    OnTimeIsNearest(Step(b, e), ReadingAfter(b, e));
    match e
    case Start(_, _, _, _) => StartFitsExactly(b, r, e);
    case Report(a) => ReportKeeps(b, r, a);
    case Quit(_, _) => QuitFitsExactly(b, r, e);
  }

  ghost predicate AlwaysOnTime(es: seq<Event>) {
    forall n :: 0 <= n <= |es| ==> OnTime(After(es, n), ReadingAt(es, n))
  }

  ghost predicate AllFit(es: seq<Event>) {
    forall n :: 0 <= n < |es| ==> Fits(After(es, n), es[n])
  }

  lemma AfterStep(es: seq<Event>, n: nat)
    requires n < |es|
    ensures After(es, n + 1) == Step(After(es, n), es[n])
    ensures ReadingAt(es, n + 1) == ReadingAfter(After(es, n), es[n])
  {
    NextTake(es, n);
  }

  lemma StepAt(es: seq<Event>, n: nat)
    requires n < |es| && Possible(After(es, n), ReadingAt(es, n), es[n])
    requires AllTracked(After(es, n).trips, ReadingAt(es, n)) && OnTime(After(es, n), ReadingAt(es, n))
    ensures AllTracked(After(es, n + 1).trips, ReadingAt(es, n + 1))
    ensures OnTime(After(es, n + 1), ReadingAt(es, n + 1)) <==> Fits(After(es, n), es[n])
  {
    AfterStep(es, n);
    StepFitsExactly(After(es, n), ReadingAt(es, n), es[n]);
  }

  lemma {:induction false} OnTimeIsTracked(es: seq<Event>, n: nat)
    requires n <= |es| && PossibleRun(es) && AlwaysOnTime(es)
    ensures AllTracked(After(es, n).trips, ReadingAt(es, n))
  {
    if n > 0 {
      OnTimeIsTracked(es, n - 1);
      StepAt(es, n - 1);
    }
  }

  lemma {:induction false} FitIsOnTime(es: seq<Event>, n: nat)
    requires n <= |es| && PossibleRun(es) && AllFit(es)
    ensures AllTracked(After(es, n).trips, ReadingAt(es, n)) && OnTime(After(es, n), ReadingAt(es, n))
  {
    if n > 0 {
      FitIsOnTime(es, n - 1);
      StepAt(es, n - 1);
    }
  }

  /** The modem is on time throughout a run if and only if every event of the run fits. */
  lemma EveryRunOnTimeExactly(es: seq<Event>)
    requires PossibleRun(es)
    ensures AlwaysOnTime(es) <==> AllFit(es)
  {
    if AlwaysOnTime(es) {
      forall n | 0 <= n < |es| ensures Fits(After(es, n), es[n]) {
        OnTimeIsTracked(es, n);
        StepAt(es, n);
      }
    }
    if AllFit(es) {
      forall n | 0 <= n <= |es| ensures OnTime(After(es, n), ReadingAt(es, n)) {
        FitIsOnTime(es, n);
      }
    }
  }

  /** It then never stays idle: while there are trips, its next report ends one. */
  lemma EveryReportEndsTrip(es: seq<Event>, n: nat)
    requires n <= |es| && PossibleRun(es) && AllFit(es) && After(es, n).trips != []
    ensures var b := After(es, n); CompletedIds(b.trips, b.ongoing.distance) != []
  {
    FitIsOnTime(es, n);
    OnTimeIsNearest(After(es, n), ReadingAt(es, n));
    ReportEndsTrip(After(es, n), ReadingAt(es, n));
  }
}
