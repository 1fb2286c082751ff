/** Whole runs against the distance really travelled: which of them count it for every
    trip, and that in those that also keep the modem on time every trip ends at exactly
    its distance. */
module TripJourneys {
  import opened Numbers
  import opened Options
  import opened Sequences
  import opened TripDistance
  import opened TripRuns
  import opened TripsOnTime

  // ---------- The distance travelled ----------

  /** What the modem has travelled in all at an event; unlike the odometer, this sum does
      not wrap. A first trip starts the odometer, whatever it showed. */
  function Now(b: Batch, e: Event, base: nat): nat {
    if b.trips == [] then base else base + e.reading
  }

  /** What it had travelled when the odometer last started from zero. */
  function BaseAfter(b: Batch, e: Event, base: nat): nat {
    if Restarted(b, e) then Now(b, e, base) else base
  }

  /** And when each trip joined. */
  function JoinedAfter(b: Batch, e: Event, base: nat, joined: map<uint32, nat>): map<uint32, nat> {
    if e.Start? then joined[e.id := Now(b, e, base)] else joined
  }

  function Base(es: seq<Event>): nat {
    if es == [] then 0 else BaseAfter(Run(es[..|es|-1]), es[|es|-1], Base(es[..|es|-1]))
  }

  function Joined(es: seq<Event>): map<uint32, nat> {
    if es == [] then map[]
    else
      var front := es[..|es|-1];
      JoinedAfter(Run(front), es[|es|-1], Base(front), Joined(front))
  }

  function BaseAt(es: seq<Event>, n: nat): nat
    requires n <= |es|
  {
    Base(es[..n])
  }

  function JoinedAt(es: seq<Event>, n: nat): map<uint32, nat>
    requires n <= |es|
  {
    Joined(es[..n])
  }

  /** Whatever the odometer shows next, the trip is found to have what was travelled since
      it joined. */
  ghost predicate Counts(s: Session, base: nat, joined: nat) {
    forall a: uint32 :: Read(s, a).thisTrip == (base + a - joined) % TWO32
  }

  ghost predicate AllCount(trips: seq<Trip>, base: nat, joined: map<uint32, nat>) {
    forall t :: t in trips ==> t.id in joined && Counts(t.session, base, joined[t.id])
  }

  ghost predicate Conserved(es: seq<Event>) {
    forall n :: 0 <= n <= |es| ==> AllCount(After(es, n).trips, BaseAt(es, n), JoinedAt(es, n))
  }

  /** The trip was last read at a, or with what it has there. */
  predicate Current(s: Session, a: uint32) {
    s.thisTrip == Read(s, a).thisTrip
  }

  ghost predicate AllCurrent(trips: seq<Trip>, a: uint32) {
    forall t :: t in trips ==> Current(t.session, a)
  }

  /** A start that restarts the modem finds every other session current. */
  ghost predicate KeepsCount(b: Batch, e: Event) {
    e.Start? && b.trips != [] && Restarted(b, e) ==> OthersCurrent(b.trips, e.id, e.reading)
  }

  ghost predicate OthersCurrent(trips: seq<Trip>, id: uint32, a: uint32) {
    forall t :: t in trips && t.id != id ==> Current(t.session, a)
  }

  // ---------- Sessions ----------

  /** What Counts says, without a reading. */
  ghost predicate Lags(s: Session, base: nat, joined: nat) {
    (s.onRestart - s.ongoingBatch) % TWO32 == (base - joined) % TWO32
  }

  lemma Shift(u: int, v: int, a: int)
    requires u % TWO32 == v % TWO32
    ensures (u + a) % TWO32 == (v + a) % TWO32
  {
    WrapIn(u, a);
    WrapIn(v, a);
  }

  lemma LagsRead(s: Session, a: uint32, base: nat, joined: nat)
    requires Lags(s, base, joined)
    ensures Read(s, a).thisTrip == (base + a - joined) % TWO32
  {
    ReadTotal(s, a);
    Shift(s.onRestart - s.ongoingBatch, base - joined, a);
  }

  lemma Unwrapped(x: uint32)
    ensures x % TWO32 == x
  {
  }

  lemma CountsIffLags(s: Session, base: nat, joined: nat)
    ensures Counts(s, base, joined) <==> Lags(s, base, joined)
  {
    ReadTotal(s, 0);
    assert Read(s, 0).thisTrip == (base + 0 - joined) % TWO32 <==> Lags(s, base, joined);
    if Lags(s, base, joined) {
      forall a: uint32 ensures Read(s, a).thisTrip == (base + a - joined) % TWO32 {
        LagsRead(s, a, base, joined);
      }
    }
  }

  lemma LagsRebase(s: Session, a: uint32, base: nat, joined: nat)
    requires Lags(s, base, joined)
    ensures Lags(Rebase(s, a), base + a, joined)
  {
    LagsRead(s, a, base, joined);
    Unwrapped(Read(s, a).thisTrip);
  }

  lemma LagsResume(s: Session, a: uint32, base: nat, joined: nat)
    requires Lags(s, base, joined)
    ensures Lags(Resume(s), base + a, joined) <==> Current(s, a)
  {
    LagsRead(s, a, base, joined);
    Unwrapped(s.thisTrip);
  }

  lemma LagsJoiner(s: Session, base: nat)
    requires s.thisTrip == s.onRestart == 0
    ensures Lags(s, base, base + s.ongoingBatch) && Current(s, s.ongoingBatch)
  {
  }

  ghost predicate AllLag(trips: seq<Trip>, base: nat, joined: map<uint32, nat>) {
    forall t :: t in trips ==> t.id in joined && Lags(t.session, base, joined[t.id])
  }

  lemma AllCountIffLag(trips: seq<Trip>, base: nat, joined: map<uint32, nat>)
    ensures AllCount(trips, base, joined) <==> AllLag(trips, base, joined)
  {
    forall t | t in trips && t.id in joined
      ensures Counts(t.session, base, joined[t.id]) <==> Lags(t.session, base, joined[t.id])
    {
      CountsIffLags(t.session, base, joined[t.id]);
    }
  }

  // ---------- The map of sessions ----------

  ghost predicate Ascending(trips: seq<Trip>) {
    forall i, j :: 0 <= i < j < |trips| ==> trips[i].id < trips[j].id
  }

  lemma {:induction false} PutReplaces(trips: seq<Trip>, t: Trip)
    requires Ascending(trips)
    ensures forall u :: u in Put(trips, t) <==> u == t || (u in trips && u.id != t.id)
  {
    if trips != [] && trips[0].id < t.id {
      PutReplaces(trips[1..], t);
      assert trips == [trips[0]] + trips[1..];
    }
  }

  lemma AscendingCons(t: Trip, trips: seq<Trip>)
    ensures Ascending([t] + trips) <==> Ascending(trips) && forall u :: u in trips ==> t.id < u.id
  {
    var all := [t] + trips;
    if Ascending(all) {
      forall i, j | 0 <= i < j < |trips| ensures trips[i].id < trips[j].id {
        assert all[i + 1].id < all[j + 1].id;
      }
      forall u | u in trips ensures t.id < u.id {
        var i :| 0 <= i < |trips| && trips[i] == u;
        assert all[0].id < all[i + 1].id;
      }
    }
  }

  lemma {:induction false} PutAscending(trips: seq<Trip>, t: Trip)
    requires Ascending(trips)
    ensures Ascending(Put(trips, t))
  {
    if trips == [] {
      assert [t] + trips == [t];
    } else {
      var first, rest := trips[0], trips[1..];
      assert trips == [first] + rest;
      AscendingCons(first, rest);
      if t.id < first.id {
        AscendingCons(t, trips);
      } else if t.id == first.id {
        AscendingCons(t, rest);
      } else {
        PutReplaces(rest, t);
        PutAscending(rest, t);
        AscendingCons(first, Put(rest, t));
      }
    }
  }

  lemma {:induction false} EraseAscending(trips: seq<Trip>, id: uint32)
    requires Ascending(trips)
    ensures Ascending(Erase(trips, id))
  {
    if trips != [] {
      var first, rest := trips[0], trips[1..];
      assert trips == [first] + rest;
      AscendingCons(first, rest);
      if first.id != id {
        EraseHas(rest, id);
        EraseAscending(rest, id);
        AscendingCons(first, Erase(rest, id));
      }
    }
  }

  lemma {:induction false} SurvivorsAscending(trips: seq<Trip>, a: uint32)
    requires Ascending(trips)
    ensures Ascending(Survivors(trips, a))
  {
    if trips != [] {
      SurvivorsAscending(trips[..|trips|-1], a);
      SweepLeavesUnfinished(trips[..|trips|-1], a);
    }
  }

  lemma RebaseLag(trips: seq<Trip>, a: uint32, base: nat, joined: map<uint32, nat>, now: nat)
    requires Ascending(trips) && AllLag(trips, base, joined) && now == base + a
    ensures Ascending(RebaseTrips(trips, a)) && AllLag(RebaseTrips(trips, a), now, joined)
  {
    forall i | 0 <= i < |trips|
      ensures trips[i].id in joined && Lags(Rebase(trips[i].session, a), now, joined[trips[i].id])
    {
      assert trips[i] in trips;
      LagsRebase(trips[i].session, a, base, joined[trips[i].id]);
    }
  }

  lemma ResumeLag(trips: seq<Trip>, a: uint32, base: nat, joined: map<uint32, nat>, now: nat)
    requires Ascending(trips) && AllLag(trips, base, joined) && now == base + a
    ensures Ascending(ResumeTrips(trips))
    ensures AllLag(ResumeTrips(trips), now, joined) <==> AllCurrent(trips, a)
  {
    var resumed := ResumeTrips(trips);
    forall i | 0 <= i < |trips|
      ensures trips[i].id in joined && resumed[i] in resumed && trips[i] in trips
      ensures Lags(resumed[i].session, base + a, joined[trips[i].id]) <==> Current(trips[i].session, a)
    {
      assert trips[i] in trips;
      LagsResume(trips[i].session, a, base, joined[trips[i].id]);
    }
  }

  lemma SurvivorFrom(trips: seq<Trip>, a: uint32, u: Trip) returns (t: Trip)
    requires u in Survivors(trips, a)
    ensures t in trips && u == t.(session := Read(t.session, a))
  {
    SweepLeavesUnfinished(trips, a);
    var i :| 0 <= i < |trips| && u == trips[i].(session := Read(trips[i].session, a));
    t := trips[i];
  }

  lemma SurvivorsLag(trips: seq<Trip>, a: uint32, base: nat, joined: map<uint32, nat>)
    requires AllLag(trips, base, joined)
    ensures AllLag(Survivors(trips, a), base, joined)
  {
    forall u | u in Survivors(trips, a) ensures u.id in joined && Lags(u.session, base, joined[u.id]) {
      var t := SurvivorFrom(trips, a, u);
    }
  }

  // ---------- Events ----------

  lemma CarriedLag(b: Batch, plan: Restart, a: uint32, base: nat, joined: map<uint32, nat>, now: nat)
    requires Ascending(b.trips) && AllLag(b.trips, base, joined) && (plan == Stop ==> b.trips == []) && now == base + a
    ensures var c := Carried(b, plan, a, true);
      Ascending(c.trips) && AllLag(c.trips, if plan == NoRestart then base else now, joined)
  {
    if plan.RestartWith? {
      RebaseLag(b.trips, a, base, joined, now);
    }
  }

  lemma ReportLag(b: Batch, e: Event, base: nat, joined: map<uint32, nat>)
    requires e.Report? && Ascending(b.trips) && AllLag(b.trips, base, joined)
    ensures Ascending(Step(b, e).trips) && AllLag(Step(b, e).trips, BaseAfter(b, e, base), joined)
  {
    SurvivorsAscending(b.trips, e.reading);
    SurvivorsLag(b.trips, e.reading, base, joined);
    if b.trips != [] {
      CarriedLag(Swept(b, e.reading), ReportPlan(b, e.reading), e.reading, base, joined, Now(b, e, base));
    }
  }

  lemma LeftLag(b: Batch, id: uint32, base: nat, joined: map<uint32, nat>)
    requires Ascending(b.trips) && AllLag(b.trips, base, joined)
    ensures Ascending(Left(b, id).trips) && AllLag(Left(b, id).trips, base, joined)
  {
    EraseHas(b.trips, id);
    EraseAscending(b.trips, id);
  }

  lemma QuitIs(b: Batch, e: Event, base: nat)
    requires e.Quit? && Find(b.trips, e.id).Some?
    ensures var plan := PlanAt(Left(b, e.id), e.reading);
      && Step(b, e) == Carried(Left(b, e.id), plan, e.reading, true)
      && Now(b, e, base) == base + e.reading
      && BaseAfter(b, e, base) == if plan == NoRestart then base else Now(b, e, base)
  {
  }

  lemma QuitLag(b: Batch, e: Event, base: nat, joined: map<uint32, nat>)
    requires e.Quit? && Ascending(b.trips) && AllLag(b.trips, base, joined)
    ensures Ascending(Step(b, e).trips) && AllLag(Step(b, e).trips, BaseAfter(b, e, base), joined)
  {
    if Find(b.trips, e.id).Some? {
      QuitIs(b, e, base);
      LeftLag(b, e.id, base, joined);
      CarriedLag(Left(b, e.id), PlanAt(Left(b, e.id), e.reading), e.reading, base, joined, Now(b, e, base));
    }
  }

  lemma PutLag(trips: seq<Trip>, joiner: Trip, base: nat, joined: map<uint32, nat>, now: nat)
    requires Ascending(trips) && AllLag(trips, base, joined) && now == base + joiner.session.ongoingBatch
    requires joiner.session.thisTrip == joiner.session.onRestart == 0
    ensures Ascending(Put(trips, joiner)) && AllLag(Put(trips, joiner), base, joined[joiner.id := now])
  {
    PutReplaces(trips, joiner);
    PutAscending(trips, joiner);
    LagsJoiner(joiner.session, base);
  }

  lemma PutCurrent(trips: seq<Trip>, joiner: Trip)
    requires Ascending(trips) && joiner.session.thisTrip == joiner.session.onRestart == 0
    ensures var a := joiner.session.ongoingBatch;
      AllCurrent(Put(trips, joiner), a) <==> OthersCurrent(trips, joiner.id, a)
  {
    PutReplaces(trips, joiner);
    LagsJoiner(joiner.session, 0);
    assert joiner in Put(trips, joiner);
  }

  lemma NoRestartLag(b: Batch, e: Event, base: nat, joined: map<uint32, nat>, now: nat)
    requires e.Start? && b.trips != [] && Ascending(b.trips) && AllLag(b.trips, base, joined)
    requires !Restarted(b, e) && now == base + e.reading
    ensures Ascending(Step(b, e).trips) && AllLag(Step(b, e).trips, base, joined[e.id := now])
  {
    StartIs(b, e);
    PutLag(b.trips, Trip(e.id, Session(e.reading, 0, 0, e.distance, e.tbf)), base, joined, now);
  }

  lemma RestartLagExactly(b: Batch, e: Event, base: nat, joined: map<uint32, nat>, now: nat)
    requires e.Start? && b.trips != [] && Ascending(b.trips) && AllLag(b.trips, base, joined)
    requires Restarted(b, e) && now == base + e.reading
    ensures Ascending(Step(b, e).trips)
    ensures AllLag(Step(b, e).trips, now, joined[e.id := now]) <==> OthersCurrent(b.trips, e.id, e.reading)
  {
    var joiner := Trip(e.id, Session(e.reading, 0, 0, e.distance, e.tbf));
    StartIs(b, e);
    PutLag(b.trips, joiner, base, joined, now);
    PutCurrent(b.trips, joiner);
    ResumeLag(Put(b.trips, joiner), e.reading, base, joined[e.id := now], now);
  }

  lemma StartLagExactly(b: Batch, e: Event, base: nat, joined: map<uint32, nat>)
    requires e.Start? && b.trips != [] && Ascending(b.trips) && AllLag(b.trips, base, joined)
    ensures Ascending(Step(b, e).trips)
    ensures AllLag(Step(b, e).trips, BaseAfter(b, e, base), JoinedAfter(b, e, base, joined)) <==> KeepsCount(b, e)
  {
    if Restarted(b, e) {
      RestartLagExactly(b, e, base, joined, Now(b, e, base));
    } else {
      NoRestartLag(b, e, base, joined, Now(b, e, base));
    }
  }

  lemma FirstLag(b: Batch, e: Event, base: nat, joined: map<uint32, nat>)
    requires e.Start? && b.trips == []
    ensures Ascending(Step(b, e).trips) && KeepsCount(b, e)
    ensures AllLag(Step(b, e).trips, BaseAfter(b, e, base), JoinedAfter(b, e, base, joined))
  {
    LagsJoiner(Step(b, e).trips[0].session, base);
  }

  lemma StepLagExactly(b: Batch, e: Event, base: nat, joined: map<uint32, nat>)
    requires Ascending(b.trips) && AllLag(b.trips, base, joined)
    ensures Ascending(Step(b, e).trips)
    ensures AllLag(Step(b, e).trips, BaseAfter(b, e, base), JoinedAfter(b, e, base, joined)) <==> KeepsCount(b, e)
  {
    if e.Report? {
      ReportLag(b, e, base, joined);
    } else if e.Quit? {
      QuitLag(b, e, base, joined);
    } else if b.trips == [] {
      FirstLag(b, e, base, joined);
    } else {
      StartLagExactly(b, e, base, joined);
    }
  }

  // ---------- All runs ----------

  lemma CountStep(es: seq<Event>, n: nat)
    requires n < |es|
    ensures BaseAt(es, n + 1) == BaseAfter(After(es, n), es[n], BaseAt(es, n))
    ensures JoinedAt(es, n + 1) == JoinedAfter(After(es, n), es[n], BaseAt(es, n), JoinedAt(es, n))
  {
    NextTake(es, n);
  }

  lemma CountAt(es: seq<Event>, n: nat)
    requires n < |es| && Ascending(After(es, n).trips)
    requires AllLag(After(es, n).trips, BaseAt(es, n), JoinedAt(es, n))
    ensures Ascending(After(es, n + 1).trips)
    ensures AllLag(After(es, n + 1).trips, BaseAt(es, n + 1), JoinedAt(es, n + 1)) <==> KeepsCount(After(es, n), es[n])
  {
    AfterStep(es, n);
    CountStep(es, n);
    StepLagExactly(After(es, n), es[n], BaseAt(es, n), JoinedAt(es, n));
  }

  ghost predicate AllKeepCount(es: seq<Event>) {
    forall n :: 0 <= n < |es| ==> KeepsCount(After(es, n), es[n])
  }

  lemma {:induction false} ConservedAscends(es: seq<Event>, n: nat)
    requires n <= |es| && Conserved(es)
    ensures Ascending(After(es, n).trips)
  {
    if n > 0 {
      ConservedAscends(es, n - 1);
      AllCountIffLag(After(es, n - 1).trips, BaseAt(es, n - 1), JoinedAt(es, n - 1));
      CountAt(es, n - 1);
    }
  }

  lemma {:induction false} KeptIsConserved(es: seq<Event>, n: nat)
    requires n <= |es| && AllKeepCount(es)
    ensures Ascending(After(es, n).trips) && AllLag(After(es, n).trips, BaseAt(es, n), JoinedAt(es, n))
  {
    if n > 0 {
      KeptIsConserved(es, n - 1);
      CountAt(es, n - 1);
    }
  }

  /** Throughout a run every trip has what was travelled since it joined, if and only if
      the starts that restart the modem find the other sessions current. */
  lemma EveryRunConservesExactly(es: seq<Event>)
    ensures Conserved(es) <==> AllKeepCount(es)
  {
    if Conserved(es) {
      forall n | 0 <= n < |es| ensures KeepsCount(After(es, n), es[n]) {
        ConservedAscends(es, n);
        AllCountIffLag(After(es, n).trips, BaseAt(es, n), JoinedAt(es, n));
        AllCountIffLag(After(es, n + 1).trips, BaseAt(es, n + 1), JoinedAt(es, n + 1));
        CountAt(es, n);
      }
    }
    if AllKeepCount(es) {
      forall n | 0 <= n <= |es| ensures AllCount(After(es, n).trips, BaseAt(es, n), JoinedAt(es, n)) {
        KeptIsConserved(es, n);
        AllCountIffLag(After(es, n).trips, BaseAt(es, n), JoinedAt(es, n));
      }
    }
  }

  // ---------- What a report finds ----------

  /** The distance from one total to another is d, modulo 2^32. */
  predicate HasGone(base: nat, a: uint32, joined: nat, d: uint32) {
    (base + a - joined) % TWO32 == d
  }

  /** What a report leaves was there before, and is read. */
  lemma ReportReads(b: Batch, a: uint32, t: Trip) returns (u: Trip)
    requires t in Step(b, Report(a)).trips
    ensures u in b.trips && u.id == t.id && t.session.thisTrip == Read(u.session, a).thisTrip
  {
    var trips, swept := Step(b, Report(a)).trips, Survivors(b.trips, a);
    var k :| 0 <= k < |trips| && trips[k] == t;
    assert t == swept[k] || t == swept[k].(session := Rebase(swept[k].session, a));
    u := SurvivorFrom(b.trips, a, swept[k]);
  }

  lemma BatchFindsJourney(b: Batch, a: uint32, t: Trip, base: nat, joined: map<uint32, nat>)
    requires t in Step(b, Report(a)).trips && AllLag(b.trips, base, joined)
    ensures t.id in joined && HasGone(base, a, joined[t.id], t.session.thisTrip)
  {
    var u := ReportReads(b, a, t);
    LagsRead(u.session, a, base, joined[t.id]);
  }

  /** In a run that keeps the count, a report records for every trip that stays what was
      travelled since it joined. */
  lemma ReportFindsJourneys(es: seq<Event>, n: nat, t: Trip)
    requires AllKeepCount(es) && n < |es| && es[n].Report? && t in After(es, n + 1).trips
    ensures t.id in JoinedAt(es, n)
    ensures HasGone(BaseAt(es, n), es[n].reading, JoinedAt(es, n)[t.id], t.session.thisTrip)
  {
    AfterStep(es, n);
    KeptIsConserved(es, n);
    BatchFindsJourney(After(es, n), es[n].reading, t, BaseAt(es, n), JoinedAt(es, n));
  }

  lemma CompletedExactly(trips: seq<Trip>, a: uint32, t: Trip)
    requires Ascending(trips) && t in trips
    ensures t.id in CompletedIds(trips, a) <==> Finished(Read(t.session, a))
  {
    SweepIsExact(trips, a, t);
    SweepLeavesUnfinished(trips, a);
    if t.id in CompletedIds(trips, a) {
      var i :| 0 <= i < |trips| && trips[i].id == t.id && Finished(Read(trips[i].session, a));
      assert trips[i] == t;
    }
  }

  /** The modem is on time and the count is right, before every event of a run that keeps
      both. */
  lemma KeptRun(es: seq<Event>, n: nat)
    requires PossibleRun(es) && AllFit(es) && AllKeepCount(es) && n < |es|
    ensures AllTracked(After(es, n).trips, ReadingAt(es, n)) && Nearest(After(es, n), ReadingAt(es, n))
    ensures Ascending(After(es, n).trips) && AllLag(After(es, n).trips, BaseAt(es, n), JoinedAt(es, n))
    ensures es[n].Report? ==> es[n].reading == After(es, n).ongoing.distance
  {
    FitIsOnTime(es, n);
    KeptIsConserved(es, n);
    OnTimeIsNearest(After(es, n), ReadingAt(es, n));
  }

  lemma BatchEndsTrip(b: Batch, r: uint32, a: uint32, t: Trip, base: nat, joined: map<uint32, nat>)
    requires t in b.trips && Ascending(b.trips) && AllTracked(b.trips, r) && Nearest(b, r) && a == b.ongoing.distance
    requires AllLag(b.trips, base, joined)
    ensures t.id in joined
    ensures t.id in CompletedIds(b.trips, a) <==> HasGone(base, a, joined[t.id], t.session.tripDistance)
  {
    AdvanceAll(b, r, a);
    CompletedExactly(b.trips, a, t);
    TrackedLeft(t.session, a);
    LagsRead(t.session, a, base, joined[t.id]);
  }

  /** In a run whose events keep the modem on time and the count right, a report ends
      exactly the trips that have travelled their distance since they joined. */
  lemma EveryTripEndsAtItsDistance(es: seq<Event>, n: nat, t: Trip)
    requires PossibleRun(es) && AllFit(es) && AllKeepCount(es)
    requires n < |es| && es[n].Report? && t in After(es, n).trips
    ensures t.id in JoinedAt(es, n)
    ensures t.id in CompletedIds(After(es, n).trips, es[n].reading) <==>
              HasGone(BaseAt(es, n), es[n].reading, JoinedAt(es, n)[t.id], t.session.tripDistance)
  {
    KeptRun(es, n);
    BatchEndsTrip(After(es, n), ReadingAt(es, n), es[n].reading, t, BaseAt(es, n), JoinedAt(es, n));
  }

  /** A family of runs that lose distance. A trip of 100 has gone a when a dense one joins,
      and the restart forgets it. When the modem has gone the rest, the trip has travelled
      its 100 and is not reported. */
  lemma JoinLosesDistance(a: uint32)
    requires 0 < a < 100
    ensures var es := [Start(1, 100, 10, 0), Start(2, 300, 5, a)];
            var b := Run(es);
      && |b.trips| == 2 && b.trips[0].id == 1 && b.trips[0].session.tripDistance == 100 && 1 in Joined(es)
      && Base(es) + b.ongoing.distance - Joined(es)[1] == 100
      && Read(b.trips[0].session, b.ongoing.distance).thisTrip == 100 - a
      && CompletedIds(b.trips, b.ongoing.distance) == []
  {
    TwoTripsRun(a);
    ModemStaysIdle(a);
    TwoTripsCount(a);
    ReadFresh(Run([Start(1, 100, 10, 0), Start(2, 300, 5, a)]).trips[0].session, 100 - a);
  }

  lemma TwoTripsCount(a: uint32)
    requires a < 100
    ensures var es := [Start(1, 100, 10, 0), Start(2, 300, 5, a)];
      Base(es) == a && 1 in Joined(es) && Joined(es)[1] == 0
  {
    var e1, e2 := Start(1, 100, 10, 0), Start(2, 300, 5, a);
    FirstRun(1, 100, 10);
    CountRun([], e1);
    CountRun([e1], e2);
    assert [] + [e1] == [e1] && [e1] + [e2] == [e1, e2];
    StartIs(Run([e1]), e2);
  }

  lemma CountRun(es: seq<Event>, e: Event)
    ensures Base(es + [e]) == BaseAfter(Run(es), e, Base(es))
    ensures Joined(es + [e]) == JoinedAfter(Run(es), e, Base(es), Joined(es))
  {
    Snoc(es, e);
  }
}
