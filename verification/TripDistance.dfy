/** Trip batching: every session measures its own distance on one odometer, which the
    modem restarts from zero now and then. All quantities are 32-bit and wrap. */
module TripDistance {
  import opened Numbers

  type uint32 = x: int | 0 <= x < 0x1_0000_0000

  function Add(a: uint32, b: uint32): uint32 {
    (a + b) % TWO32
  }

  function Sub(a: uint32, b: uint32): uint32 {
    (a - b) % TWO32
  }

  datatype Session = Session(
    ongoingBatch: uint32,   // odometer reading when the session joined this batch
    thisTrip: uint32,       // distance of the trip at the last reading
    onRestart: uint32,      // distance of the trip when the modem was last restarted
    tripDistance: uint32,
    tbfInterval: uint32)

  /** A map entry; maps are listed by ascending id. */
  datatype Trip = Trip(id: uint32, session: Session)

  // ---------- Readings and restarts ----------

  /** The session after the odometer reads a. */
  function Read(s: Session, a: uint32): Session {
    s.(thisTrip := Add(s.onRestart, Sub(a, s.ongoingBatch)))
  }

  /** The session after the modem was restarted at reading a. */
  function Rebase(s: Session, a: uint32): Session {
    var r := Read(s, a);
    r.(ongoingBatch := 0, onRestart := r.thisTrip)
  }

  predicate Finished(s: Session) {
    s.tripDistance <= s.thisTrip
  }

  function Remaining(s: Session): uint32 {
    Sub(s.tripDistance, s.thisTrip)
  }

  /** A restart at reading a followed by a reading of b gives the same trip distance as
      a reading of a + b without the restart. */
  lemma RebaseConserves(s: Session, a: uint32, b: uint32)
    ensures Read(Rebase(s, a), b).thisTrip == Read(s, Add(a, b)).thisTrip
  {
    ReadTotal(s, a);
    ReadTotal(s, Add(a, b));
    ReadTotal(Rebase(s, a), b);
    var x: int := s.onRestart - s.ongoingBatch;
    WrapIn(x + a, b);
    WrapIn(a + b, x);
  }

  /** The trip distance at reading a, as one sum. */
  lemma ReadTotal(s: Session, a: uint32)
    ensures Read(s, a).thisTrip == (s.onRestart - s.ongoingBatch + a) % TWO32
  {
    WrapIn(a - s.ongoingBatch, s.onRestart);
  }

  lemma WrapIn(u: int, v: int)
    ensures (u % TWO32 + v) % TWO32 == (u + v) % TWO32
  {
  }

  lemma WrapStays(u: int, v: nat)
    requires u % TWO32 + v < TWO32
    ensures (u + v) % TWO32 == u % TWO32 + v
  {
    WrapIn(u, v);
  }

  function RebaseAll(s: Session, readings: seq<uint32>): Session {
    if readings == [] then s else Rebase(RebaseAll(s, readings[..|readings|-1]), readings[|readings|-1])
  }

  function Sum(readings: seq<uint32>): uint32 {
    if readings == [] then 0 else Add(Sum(readings[..|readings|-1]), readings[|readings|-1])
  }

  /** Conservation over any number of restarts. */
  lemma {:induction false} RestartsConserve(s: Session, readings: seq<uint32>, b: uint32)
    ensures Read(RebaseAll(s, readings), b).thisTrip == Read(s, Add(Sum(readings), b)).thisTrip
  {
    if readings != [] {
      var front, last := readings[..|readings|-1], readings[|readings|-1];
      RebaseConserves(RebaseAll(s, front), last, b);
      RestartsConserve(s, front, Add(last, b));
      WrapIn(Sum(front) + last, b);
      WrapIn(last + b, Sum(front));
    }
  }

  // ---------- The completion sweep ----------

  function Survivors(trips: seq<Trip>, a: uint32): seq<Trip> {
    if trips == [] then []
    else
      var n := |trips| - 1;
      var s := Read(trips[n].session, a);
      Survivors(trips[..n], a) + if Finished(s) then [] else [trips[n].(session := s)]
  }

  function CompletedIds(trips: seq<Trip>, a: uint32): seq<uint32> {
    if trips == [] then []
    else
      var n := |trips| - 1;
      CompletedIds(trips[..n], a) + if Finished(Read(trips[n].session, a)) then [trips[n].id] else []
  }

  function OfDistance(d: uint32): Session -> bool {
    (s: Session) => s.tripDistance == d
  }

  function OfInterval(tbf: uint32): Session -> bool {
    (s: Session) => s.tbfInterval == tbf
  }

  /** Whether a session that the sweep ends has some property. */
  predicate AnyEnds(trips: seq<Trip>, a: uint32, p: Session -> bool) {
    trips != [] &&
      var n := |trips| - 1;
      AnyEnds(trips[..n], a, p) || (Finished(Read(trips[n].session, a)) && p(trips[n].session))
  }

  lemma {:induction false} AnyEndsIsExact(trips: seq<Trip>, a: uint32, p: Session -> bool)
    ensures AnyEnds(trips, a, p) <==>
              exists i :: 0 <= i < |trips| && Finished(Read(trips[i].session, a)) && p(trips[i].session)
  {
    if trips != [] {
      var n := |trips| - 1;
      AnyEndsIsExact(trips[..n], a, p);
      assert AnyEnds(trips, a, p) <==>
               AnyEnds(trips[..n], a, p) || (Finished(Read(trips[n].session, a)) && p(trips[n].session));
    }
  }

  /** After the sweep exactly the finished trips are gone, each is reported, and every
      trip that stays has a positive distance to go. */
  lemma {:induction false} SweepIsExact(trips: seq<Trip>, a: uint32, t: Trip)
    requires t in trips
    ensures Finished(Read(t.session, a)) ==> t.id in CompletedIds(trips, a)
    ensures !Finished(Read(t.session, a)) ==> t.(session := Read(t.session, a)) in Survivors(trips, a)
  {
    var n := |trips| - 1;
    if trips[n] != t {
      assert t in trips[..n];
      SweepIsExact(trips[..n], a, t);
    }
  }

  lemma {:induction false} SweepLeavesUnfinished(trips: seq<Trip>, a: uint32)
    ensures forall u :: u in Survivors(trips, a) ==>
      && !Finished(u.session) && 0 < Remaining(u.session) == u.session.tripDistance - u.session.thisTrip
      && exists i :: 0 <= i < |trips| && u == trips[i].(session := Read(trips[i].session, a))
    ensures forall id :: id in CompletedIds(trips, a) ==>
      exists i :: 0 <= i < |trips| && trips[i].id == id && Finished(Read(trips[i].session, a))
  {
    if trips != [] {
      SweepLeavesUnfinished(trips[..|trips|-1], a);
    }
  }

  // ---------- The zero-sentinel minimum ----------

  /** The loop that takes a zero for "nothing seen yet". */
  function SentinelMin(xs: seq<uint32>): uint32 {
    if xs == [] then 0
    else
      var m, x := SentinelMin(xs[..|xs|-1]), xs[|xs|-1];
      if m == 0 || m > x then x else m
  }

  ghost predicate IsMin(xs: seq<uint32>, m: uint32) {
    m in xs && forall x :: x in xs ==> m <= x
  }

  lemma {:induction false} SentinelMinOfPositives(xs: seq<uint32>)
    requires xs != [] && 0 !in xs
    ensures IsMin(xs, SentinelMin(xs))
  {
    var front, last := xs[..|xs|-1], xs[|xs|-1];
    assert xs == front + [last];
    if front != [] {
      SentinelMinOfPositives(front);
    }
  }

  lemma {:induction false} SentinelMinZero(xs: seq<uint32>)
    ensures SentinelMin(xs) == 0 <==> xs == [] || xs[|xs|-1] == 0
  {
    if xs != [] {
      SentinelMinZero(xs[..|xs|-1]);
    }
  }

  /** The loop finds the minimum of all values exactly when none of them is zero or the
      last one is. */
  lemma SentinelMinIsExact(xs: seq<uint32>)
    requires xs != []
    ensures IsMin(xs, SentinelMin(xs)) <==> 0 !in xs || xs[|xs|-1] == 0
  {
    SentinelMinZero(xs);
    if 0 !in xs {
      SentinelMinOfPositives(xs);
    } else {
      assert xs[|xs|-1] in xs;
    }
  }

  // ---------- What the modem is asked for ----------

  /** What the adapter believes the modem is doing, and which of it has lost its trip. */
  datatype Ongoing = Ongoing(distance: uint32, tbf: uint32, distanceDropped: bool, tbfDropped: bool)

  datatype Restart = Stop | NoRestart | RestartWith(distance: uint32, tbf: uint32)

  /** Whether the distance of the ongoing batch has to change. */
  predicate DistanceChanges(o: Ongoing, minRemaining: uint32, a: uint32) {
    if !o.distanceDropped && Sub(o.distance, a) != 0 then minRemaining < Sub(o.distance, a)
    else minRemaining != 0
  }

  predicate TbfChanges(o: Ongoing, minTbf: uint32) {
    minTbf < o.tbf || (minTbf != o.tbf && o.tbfDropped)
  }

  function Decide(o: Ongoing, minRemaining: uint32, minTbf: uint32, a: uint32): Restart {
    if !DistanceChanges(o, minRemaining, a) && !TbfChanges(o, minTbf) then NoRestart
    else RestartWith(if DistanceChanges(o, minRemaining, a) then minRemaining else o.distance,
                     if TbfChanges(o, minTbf) then minTbf else o.tbf)
  }

  function Remainings(trips: seq<Trip>): seq<uint32> {
    seq(|trips|, i requires 0 <= i < |trips| => Remaining(trips[i].session))
  }

  function Intervals(trips: seq<Trip>): seq<uint32> {
    seq(|trips|, i requires 0 <= i < |trips| => trips[i].session.tbfInterval)
  }

  // ---------- Is the modem in time? ----------

  /** What a trip has left at reading a, whenever it was read last. */
  function LeftAt(s: Session, a: uint32): uint32 {
    if Finished(Read(s, a)) then 0 else Remaining(Read(s, a))
  }

  function LeastLeft(trips: seq<Trip>, a: uint32): uint32
    requires trips != []
  {
    var n := |trips| - 1;
    var last := LeftAt(trips[n].session, a);
    if n == 0 then last else var m := LeastLeft(trips[..n], a); if m < last then m else last
  }

  /** Restarted at reading a with distance d, the modem's next report at d is neither
      early nor late: some trip is finished at reading b exactly when b reaches d. */
  ghost predicate AsksForNearest(trips: seq<Trip>, a: uint32, d: uint32) {
    forall b: uint32 :: NoWrap(trips, a, b) ==> (SomeFinished(trips, a, b) <==> d <= b)
  }

  /** No trip is finished before the modem reports. */
  ghost predicate NotLate(trips: seq<Trip>, a: uint32, d: uint32) {
    forall b: uint32 :: NoWrap(trips, a, b) && SomeFinished(trips, a, b) ==> d <= b
  }

  ghost predicate NoWrap(trips: seq<Trip>, a: uint32, b: uint32) {
    forall i :: 0 <= i < |trips| ==> Read(trips[i].session, a).thisTrip + b < TWO32
  }

  ghost predicate SomeFinished(trips: seq<Trip>, a: uint32, b: uint32) {
    exists i :: 0 <= i < |trips| && FinishedAt(trips[i].session, a, b)
  }

  /** Finished at reading b of the batch that was restarted at reading a. */
  predicate FinishedAt(s: Session, a: uint32, b: uint32) {
    Finished(Read(Rebase(s, a), b))
  }

  lemma {:induction false} LeastLeftIs(trips: seq<Trip>, a: uint32)
    requires trips != []
    ensures forall i :: 0 <= i < |trips| ==> LeastLeft(trips, a) <= LeftAt(trips[i].session, a)
    ensures exists i :: 0 <= i < |trips| && LeastLeft(trips, a) == LeftAt(trips[i].session, a)
  {
    var n := |trips| - 1;
    var last := LeftAt(trips[n].session, a);
    if n > 0 {
      LeastLeftIs(trips[..n], a);
      var i :| 0 <= i < n && LeastLeft(trips[..n], a) == LeftAt(trips[..n][i].session, a);
      assert forall k :: 0 <= k < n ==> trips[..n][k] == trips[k];
      assert LeastLeft(trips, a) == LeftAt(trips[i].session, a) || LeastLeft(trips, a) == last;
    }
  }

  lemma RemainingIs(s: Session)
    requires !Finished(s)
    ensures 0 < Remaining(s) == s.tripDistance - s.thisTrip
  {
  }

  lemma FinishedAfter(s: Session, a: uint32, b: uint32)
    requires Read(s, a).thisTrip + b < TWO32
    ensures FinishedAt(s, a, b) <==> LeftAt(s, a) <= b
  {
    ReadTotal(Rebase(s, a), b);
    if !Finished(Read(s, a)) {
      RemainingIs(Read(s, a));
    }
  }

  lemma LeftFits(s: Session, a: uint32, b: uint32)
    requires b <= LeftAt(s, a)
    ensures Read(s, a).thisTrip + b < TWO32
  {
    if !Finished(Read(s, a)) {
      RemainingIs(Read(s, a));
    }
  }

  /** The least distance that a trip has left is where the next one finishes. */
  lemma LeastLeftIsNearest(trips: seq<Trip>, a: uint32)
    requires trips != []
    ensures NoWrap(trips, a, LeastLeft(trips, a)) && AsksForNearest(trips, a, LeastLeft(trips, a))
  {
    var m := LeastLeft(trips, a);
    LeastLeftIs(trips, a);
    forall i | 0 <= i < |trips| ensures Read(trips[i].session, a).thisTrip + m < TWO32 {
      LeftFits(trips[i].session, a, m);
    }
    forall b: uint32 | NoWrap(trips, a, b) ensures SomeFinished(trips, a, b) <==> m <= b {
      forall i | 0 <= i < |trips| ensures FinishedAt(trips[i].session, a, b) <==> LeftAt(trips[i].session, a) <= b {
        FinishedAfter(trips[i].session, a, b);
      }
    }
  }

  /** It is also the greatest distance that is not late. */
  lemma NotLateUpToNearest(trips: seq<Trip>, a: uint32, d: uint32)
    requires trips != []
    ensures NotLate(trips, a, d) <==> d <= LeastLeft(trips, a)
  {
    LeastLeftIsNearest(trips, a);
    var m := LeastLeft(trips, a);
    assert NoWrap(trips, a, m) && SomeFinished(trips, a, m);
  }

  // ---------- Sessions that were all read at one time ----------

  /** Trips as a sweep at reading a leaves them. */
  ghost predicate SweptAt(trips: seq<Trip>, a: uint32) {
    forall i :: 0 <= i < |trips| ==>
      trips[i].session == Read(trips[i].session, a) && !Finished(trips[i].session)
  }

  lemma {:induction false} SurvivorsAreSwept(trips: seq<Trip>, a: uint32)
    ensures SweptAt(Survivors(trips, a), a)
  {
    if trips != [] {
      SurvivorsAreSwept(trips[..|trips|-1], a);
    }
  }

  /** What is left of m once e more has been travelled. */
  function Less(m: uint32, e: uint32): uint32 {
    if e < m then m - e else 0
  }

  lemma ReadLater(s: Session, a0: uint32, a: uint32)
    requires a0 <= a && Read(s, a0).thisTrip + (a - a0) < TWO32
    ensures Read(s, a).thisTrip == Read(s, a0).thisTrip + (a - a0)
  {
    ReadTotal(s, a0);
    ReadTotal(s, a);
    WrapStays(s.onRestart - s.ongoingBatch + a0, a - a0);
  }

  lemma LeftLater(s: Session, a0: uint32, a: uint32)
    requires a0 <= a && Read(s, a0).thisTrip + (a - a0) < TWO32
    ensures LeftAt(s, a) == Less(LeftAt(s, a0), a - a0)
  {
    ReadLater(s, a0, a);
    if !Finished(Read(s, a0)) {
      RemainingIs(Read(s, a0));
    }
    if !Finished(Read(s, a)) {
      RemainingIs(Read(s, a));
    }
  }

  lemma Lesser(m: uint32, n: uint32, e: uint32)
    ensures m <= n ==> Less(m, e) <= Less(n, e)
  {
  }

  /** Session i was last read at lasts[i], and the distance travelled since does not wrap. */
  ghost predicate ReadSince(trips: seq<Trip>, lasts: seq<uint32>, a: uint32) {
    |lasts| == |trips| && forall i :: 0 <= i < |trips| ==>
      lasts[i] <= a && Read(trips[i].session, lasts[i]).thisTrip + (a - lasts[i]) < TWO32
  }

  /** The trips were all swept at a0 and the distance travelled since does not wrap. */
  ghost predicate Later(trips: seq<Trip>, a0: uint32, a: uint32) {
    a0 <= a && SweptAt(trips, a0) && forall i :: 0 <= i < |trips| ==> trips[i].session.thisTrip + (a - a0) < TWO32
  }

  lemma LeastLeftLater(trips: seq<Trip>, a0: uint32, a: uint32)
    requires trips != [] && Later(trips, a0, a)
    ensures SentinelMin(Remainings(trips)) > 0
    ensures LeastLeft(trips, a) == Less(SentinelMin(Remainings(trips)), a - a0)
  {
    var rs := Remainings(trips);
    SweptRemain(trips, a0);
    SentinelMinOfPositives(rs);
    LeastLeftIs(trips, a);
    forall i | 0 <= i < |trips|
      ensures LeftAt(trips[i].session, a) == Less(rs[i], a - a0) && Less(SentinelMin(rs), a - a0) <= Less(rs[i], a - a0)
    {
      LeftLater(trips[i].session, a0, a);
      assert rs[i] in rs;
      Lesser(SentinelMin(rs), rs[i], a - a0);
    }
    var k :| 0 <= k < |rs| && rs[k] == SentinelMin(rs);
    assert LeastLeft(trips, a) <= LeftAt(trips[k].session, a);
  }

  lemma SweptRemain(trips: seq<Trip>, a0: uint32)
    requires SweptAt(trips, a0)
    ensures 0 !in Remainings(trips)
  {
    forall i | 0 <= i < |trips| ensures Remainings(trips)[i] != 0 {
      RemainingIs(trips[i].session);
    }
  }

  /** After a sweep at the same reading, the minimum that the sentinel loop finds is the
      nearest completion. */
  lemma MinRemainingIsNearest(trips: seq<Trip>, a: uint32)
    requires trips != [] && SweptAt(trips, a)
    ensures AsksForNearest(trips, a, SentinelMin(Remainings(trips)))
  {
    LeastLeftLater(trips, a, a);
    LeastLeftIsNearest(trips, a);
  }

  // ---------- The decision ----------

  /** How far the modem will go from reading a before it reports. */
  function ReportsAfter(o: Ongoing, plan: Restart, a: uint32): uint32
    requires plan != Stop
  {
    if plan.RestartWith? then plan.distance else Sub(o.distance, a)
  }

  /** The modem's next report lets no completion pass. A modem whose distance is used up
      and that is not restarted reports no more. */
  ghost predicate InTime(o: Ongoing, trips: seq<Trip>, plan: Restart, a: uint32)
    requires plan != Stop
  {
    (plan == NoRestart ==> Sub(o.distance, a) != 0) && NotLate(trips, a, ReportsAfter(o, plan, a))
  }

  /** Whatever was read when: after the decision at reading a no completion passes the
      modem if and only if the distance that its branch picks is at most the least one
      that a trip has left at that reading. */
  lemma DecisionIsLateExactly(o: Ongoing, trips: seq<Trip>, minTbf: uint32, a: uint32)
    requires trips != []
    ensures var m, left := SentinelMin(Remainings(trips)), LeastLeft(trips, a);
      InTime(o, trips, Decide(o, m, minTbf, a), a) <==>
        if DistanceChanges(o, m, a) then m <= left
        else if TbfChanges(o, minTbf) then o.distance <= left
        else 0 < Sub(o.distance, a) <= left
  {
    NotLateUpToNearest(trips, a, ReportsAfter(o, Decide(o, SentinelMin(Remainings(trips)), minTbf, a), a));
  }

  /** The decision is made at a queried reading, and every session was last read at a
      reading of its own: for each of them the distance that the branch picks has to be at
      most what it had left then, less what was travelled since. */
  lemma QueriedDecisionIsLateExactly(o: Ongoing, trips: seq<Trip>, minTbf: uint32, lasts: seq<uint32>, a: uint32)
    requires trips != [] && ReadSince(trips, lasts, a)
    ensures var m := SentinelMin(Remainings(trips));
      InTime(o, trips, Decide(o, m, minTbf, a), a) <==>
        && (DistanceChanges(o, m, a) || TbfChanges(o, minTbf) || Sub(o.distance, a) != 0)
        && forall i :: 0 <= i < |trips| ==>
             (if DistanceChanges(o, m, a) then m else if TbfChanges(o, minTbf) then o.distance else Sub(o.distance, a))
               <= Less(LeftAt(trips[i].session, lasts[i]), a - lasts[i])
  {
    DecisionIsLateExactly(o, trips, minTbf, a);
    LeastLeftIs(trips, a);
    forall i | 0 <= i < |trips|
      ensures LeftAt(trips[i].session, a) == Less(LeftAt(trips[i].session, lasts[i]), a - lasts[i])
    {
      LeftLater(trips[i].session, lasts[i], a);
    }
  }

  /** When one sweep was the last to read them all, a new distance is in time exactly when
      nothing was travelled in between; an old one when it is at most what the nearest trip
      had left, less what was travelled. */
  lemma OldSweepIsLateExactly(o: Ongoing, trips: seq<Trip>, minTbf: uint32, a0: uint32, a: uint32)
    requires trips != [] && Later(trips, a0, a)
    ensures var m := SentinelMin(Remainings(trips));
      InTime(o, trips, Decide(o, m, minTbf, a), a) <==>
        if DistanceChanges(o, m, a) then a == a0
        else if TbfChanges(o, minTbf) then o.distance <= Less(m, a - a0)
        else 0 < Sub(o.distance, a) <= Less(m, a - a0)
  {
    LeastLeftLater(trips, a0, a);
    DecisionIsLateExactly(o, trips, minTbf, a);
  }

  /** After a sweep at the same reading: late exactly when the interval alone makes the
      modem restart, with a distance that was more than what the nearest trip has left. */
  lemma SweptDecisionIsLateExactly(o: Ongoing, trips: seq<Trip>, minTbf: uint32, a: uint32)
    requires trips != [] && SweptAt(trips, a)
    ensures var m := SentinelMin(Remainings(trips));
      InTime(o, trips, Decide(o, m, minTbf, a), a) <==>
        !(!DistanceChanges(o, m, a) && TbfChanges(o, minTbf) && m < o.distance)
  {
    LeastLeftLater(trips, a, a);
    OldSweepIsLateExactly(o, trips, minTbf, a, a);
  }

  /** The interval that the modem runs at after the decision. */
  function RunsAt(o: Ongoing, plan: Restart): uint32
    requires plan != Stop
  {
    if plan.RestartWith? then plan.tbf else o.tbf
  }

  /** It is short enough for every session if and only if the sentinel loop finds the
      least interval, or the modem runs at zero already for a session that is still
      there. */
  lemma IntervalIsShortEnough(o: Ongoing, trips: seq<Trip>, a: uint32)
    requires trips != []
    ensures var xs := Intervals(trips);
            var plan := Decide(o, SentinelMin(Remainings(trips)), SentinelMin(xs), a);
      (forall i :: 0 <= i < |xs| ==> RunsAt(o, plan) <= xs[i]) <==>
        0 !in xs || xs[|xs|-1] == 0 || (o.tbf == 0 && !o.tbfDropped)
  {
    var xs := Intervals(trips);
    var m := SentinelMin(xs);
    var plan := Decide(o, SentinelMin(Remainings(trips)), m, a);
    SentinelMinZero(xs);
    if 0 !in xs {
      SentinelMinOfPositives(xs);
      forall i | 0 <= i < |xs| ensures RunsAt(o, plan) <= xs[i] {
        assert xs[i] in xs;
      }
    } else {
      var k :| 0 <= k < |xs| && xs[k] == 0;
      assert RunsAt(o, plan) <= xs[k] <==> RunsAt(o, plan) == 0;
    }
  }
}
