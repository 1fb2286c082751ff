/** The adapter trip by trip: what each event makes of each session, with no list in
    sight, and what has ever raised the two flags. */
module TripTable {
  import opened Options
  import opened Sequences
  import opened TripDistance
  import opened TripRuns
  import opened TripsOnTime
  import opened TripJourneys

  // ---------- The list as a map ----------

  lemma {:induction false} FindIs(trips: seq<Trip>, id: uint32)
    requires Ascending(trips)
    ensures forall t :: t in trips && t.id == id ==> Find(trips, id) == Some(t.session)
    ensures Find(trips, id).Some? ==> Trip(id, Find(trips, id).value) in trips
  {
    if trips != [] {
      var first, rest := trips[0], trips[1..];
      assert trips == [first] + rest;
      AscendingCons(first, rest);
      FindIs(rest, id);
    }
  }

  lemma {:induction false} FindPut(trips: seq<Trip>, t: Trip, id: uint32)
    ensures Find(Put(trips, t), id) == if id == t.id then Some(t.session) else Find(trips, id)
  {
    if trips != [] && trips[0].id < t.id {
      FindPut(trips[1..], t, id);
      ConsJoin(trips[0], Put(trips[1..], t), []);
    } else if trips == [] || t.id < trips[0].id {
      ConsJoin(t, trips, []);
    } else {
      ConsJoin(t, trips[1..], []);
    }
  }

  lemma {:induction false} FindErase(trips: seq<Trip>, gone: uint32, id: uint32)
    requires Ascending(trips)
    ensures Find(Erase(trips, gone), id) == if id == gone then None else Find(trips, id)
  {
    if trips != [] {
      var first, rest := trips[0], trips[1..];
      assert trips == [first] + rest;
      AscendingCons(first, rest);
      if first.id == gone {
        FindIs(rest, gone);
      } else {
        FindErase(rest, gone, id);
        ConsJoin(first, Erase(rest, gone), []);
      }
    }
  }

  lemma {:induction false} FindRebased(trips: seq<Trip>, a: uint32, id: uint32)
    ensures Find(RebaseTrips(trips, a), id) ==
              match Find(trips, id) case None => None case Some(s) => Some(Rebase(s, a))
  {
    if trips != [] {
      FindRebased(trips[1..], a, id);
      assert RebaseTrips(trips, a)[1..] == RebaseTrips(trips[1..], a);
    }
  }

  lemma {:induction false} FindResumed(trips: seq<Trip>, id: uint32)
    ensures Find(ResumeTrips(trips), id) ==
              match Find(trips, id) case None => None case Some(s) => Some(Resume(s))
  {
    if trips != [] {
      FindResumed(trips[1..], id);
      assert ResumeTrips(trips)[1..] == ResumeTrips(trips[1..]);
    }
  }

  lemma FindSurvivor(trips: seq<Trip>, a: uint32, id: uint32)
    requires Ascending(trips)
    ensures Find(Survivors(trips, a), id) ==
              match Find(trips, id)
              case None => None
              case Some(s) => if Finished(Read(s, a)) then None else Some(Read(s, a))
  {
    var left := Survivors(trips, a);
    SurvivorsAscending(trips, a);
    FindIs(trips, id);
    FindIs(left, id);
    if Find(left, id).Some? {
      var t := SurvivorFrom(trips, a, Trip(id, Find(left, id).value));
      StaysUnfinished(trips, a, Trip(id, Find(left, id).value));
    } else if Find(trips, id).Some? {
      SweepIsExact(trips, a, Trip(id, Find(trips, id).value));
    }
  }

  lemma StaysUnfinished(trips: seq<Trip>, a: uint32, u: Trip)
    requires u in Survivors(trips, a)
    ensures !Finished(u.session)
  {
    SweepLeavesUnfinished(trips, a);
  }

  // ---------- One event, one trip ----------

  /** A session whose distance is total when the modem starts again from zero. */
  function Restated(s: Session, total: uint32): Session {
    Session(0, total, total, s.tripDistance, s.tbfInterval)
  }

  /** What an event makes of the session of an id. Whenever the modem is restarted, a session
      goes on from the distance that it has at the reading, but at a start from the one that
      it was last read with. */
  function SessionAfter(s: Option<Session>, b: Batch, e: Event, id: uint32): Option<Session> {
    match e
    case Start(g, distance, tbf, a) =>
      if b.trips == [] then if id == g then Some(Session(0, 0, 0, distance, tbf)) else None
      else if id == g then Some(Session(if Restarted(b, e) then 0 else a, 0, 0, distance, tbf))
      else if s.Some? && Restarted(b, e) then Some(Restated(s.value, s.value.thisTrip))
      else s
    case Report(a) =>
      if s == None || s.value.tripDistance <= Read(s.value, a).thisTrip then None
      else if Restarted(b, e) then Some(Restated(s.value, Read(s.value, a).thisTrip))
      else Some(s.value.(thisTrip := Read(s.value, a).thisTrip))
    case Quit(g, a) =>
      if s == None || id == g then None
      else if Restarted(b, e) then Some(Restated(s.value, Read(s.value, a).thisTrip))
      else s
  }

  lemma CarriedTrip(b: Batch, plan: Restart, a: uint32, id: uint32)
    requires plan == Stop ==> b.trips == []
    ensures Find(Carried(b, plan, a, true).trips, id) ==
              if plan.RestartWith? && Find(b.trips, id).Some? then Some(Rebase(Find(b.trips, id).value, a))
              else Find(b.trips, id)
  {
    FindRebased(b.trips, a, id);
  }

  lemma ReportTrip(b: Batch, e: Event, id: uint32)
    requires e.Report? && Ascending(b.trips)
    ensures Find(Step(b, e).trips, id) == SessionAfter(Find(b.trips, id), b, e, id)
  {
    FindSurvivor(b.trips, e.reading, id);
    CarriedTrip(Swept(b, e.reading), ReportPlan(b, e.reading), e.reading, id);
    if Find(b.trips, id).Some? {
      ReadAgain(Find(b.trips, id).value, e.reading);
    }
  }

  lemma ReadAgain(s: Session, a: uint32)
    ensures Rebase(Read(s, a), a) == Rebase(s, a) == Restated(s, Read(s, a).thisTrip)
  {
  }

  lemma QuitTrip(b: Batch, e: Event, id: uint32)
    requires e.Quit? && Ascending(b.trips)
    ensures Find(Step(b, e).trips, id) == SessionAfter(Find(b.trips, id), b, e, id)
  {
    if Find(b.trips, e.id).Some? {
      FindErase(b.trips, e.id, id);
      CarriedTrip(Left(b, e.id), PlanAt(Left(b, e.id), e.reading), e.reading, id);
      if Find(b.trips, id).Some? {
        ReadAgain(Find(b.trips, id).value, e.reading);
      }
    }
  }

  lemma StartTrip(b: Batch, e: Event, id: uint32)
    requires e.Start?
    ensures Find(Step(b, e).trips, id) == SessionAfter(Find(b.trips, id), b, e, id)
  {
    if b.trips != [] {
      var joiner := Trip(e.id, Session(e.reading, 0, 0, e.distance, e.tbf));
      StartIs(b, e);
      FindPut(b.trips, joiner, id);
      FindResumed(Put(b.trips, joiner), id);
    }
  }

  lemma StepAscends(b: Batch, e: Event)
    requires Ascending(b.trips)
    ensures Ascending(Step(b, e).trips)
  {
    match e
    case Start(id, distance, tbf, a) =>
      if b.trips != [] {
        StartIs(b, e);
        PutAscending(b.trips, Trip(id, Session(a, 0, 0, distance, tbf)));
      }
    case Report(a) => SurvivorsAscending(b.trips, a);
    case Quit(id, _) => EraseAscending(b.trips, id);
  }

  lemma {:induction false} EveryRunAscends(es: seq<Event>)
    ensures Ascending(Run(es).trips)
  {
    if es != [] {
      EveryRunAscends(es[..|es|-1]);
      StepAscends(Run(es[..|es|-1]), es[|es|-1]);
    }
  }

  /** After any run, any event makes of each session exactly that. */
  lemma EveryEventTripByTrip(es: seq<Event>, e: Event, id: uint32)
    ensures Find(Run(es + [e]).trips, id) == SessionAfter(Find(Run(es).trips, id), Run(es), e, id)
  {
    RunStep(es, e);
    EveryRunAscends(es);
    match e
    case Start(_, _, _, _) => StartTrip(Run(es), e, id);
    case Report(_) => ReportTrip(Run(es), e, id);
    case Quit(_, _) => QuitTrip(Run(es), e, id);
  }

  // ---------- The flags ----------

  /** The event takes out, finished or stopped, a trip with the ongoing distance, ... */
  ghost predicate DropsDistance(b: Batch, e: Event) {
    match e
    case Start(_, _, _, _) => false
    case Report(a) => exists t :: t in b.trips && Ends(t, a) && t.session.tripDistance == b.ongoing.distance
    case Quit(id, _) => Find(b.trips, id).Some? && Find(b.trips, id).value.tripDistance == b.ongoing.distance
  }

  /** ... or with the ongoing interval. */
  ghost predicate DropsInterval(b: Batch, e: Event) {
    match e
    case Start(_, _, _, _) => false
    case Report(a) => exists t :: t in b.trips && Ends(t, a) && t.session.tbfInterval == b.ongoing.tbf
    case Quit(id, _) => Find(b.trips, id).Some? && Find(b.trips, id).value.tbfInterval == b.ongoing.tbf
  }

  lemma StepFlags(b: Batch, e: Event)
    ensures var o, after := b.ongoing, Step(b, e).ongoing;
      && (after.distanceDropped <==> o.distanceDropped || DropsDistance(b, e))
      && (after.tbfDropped <==> o.tbfDropped || DropsInterval(b, e))
  {
    match e
    case Start(_, _, _, _) =>
    case Report(a) => SweepFlags(b, a);
    case Quit(id, _) => StopFlags(b, id);
  }

  ghost predicate EverDropsDistance(es: seq<Event>) {
    es != [] &&
      var front := es[..|es|-1];
      EverDropsDistance(front) || DropsDistance(Run(front), es[|es|-1])
  }

  ghost predicate EverDropsInterval(es: seq<Event>) {
    es != [] &&
      var front := es[..|es|-1];
      EverDropsInterval(front) || DropsInterval(Run(front), es[|es|-1])
  }

  /** A flag is up if and only if some event of the run has raised it: neither a restart
      nor a stop of the batch ever lowers it. */
  lemma {:induction false} EveryRunFlags(es: seq<Event>)
    ensures Run(es).ongoing.distanceDropped <==> EverDropsDistance(es)
    ensures Run(es).ongoing.tbfDropped <==> EverDropsInterval(es)
  {
    if es != [] {
      EveryRunFlags(es[..|es|-1]);
      StepFlags(Run(es[..|es|-1]), es[|es|-1]);
    }
  }
}
