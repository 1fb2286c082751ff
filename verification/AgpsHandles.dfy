/** The AGPS machine handle by handle: what each event tells each handle, whether it stays
    listed, and what it makes of the data connection, with no subscriber list in sight.
    And the life of a subscriber that waits for the connection to close. */
module AgpsHandles {
  import opened AgpsRuns

  // ---------- What can be seen ----------

  /** The callbacks made to one handle, in order. */
  function Heard(trace: List<Obs>, h: int): seq<Obs> {
    match trace
    case Nil => []
    case Snoc(before, o) =>
      Heard(before, h) + if o == AtlOpen(h, true) || o == AtlOpen(h, false) || o == AtlClose(h) then [o] else []
  }

  /** The requests and releases of the data connection, in order. */
  function ConnCalls(trace: List<Obs>): seq<Obs> {
    match trace
    case Nil => []
    case Snoc(before, o) => ConnCalls(before) + if o == ConnRequest || o == ConnRelease then [o] else []
  }

  /** Whether the request that opened the handle's episode asked to wait for the close. */
  function WaitsIn(trace: List<Obs>, h: int): bool {
    match trace
    case Nil => false
    case Snoc(before, o) =>
      if o.In? && o.event.Request? && o.event.handle == h && EpisodeOf(before, h) == Absent then o.event.waits
      else WaitsIn(before, h)
  }

  // ---------- What each event means for one handle ----------

  /** The callbacks that an event makes to a handle. */
  function Tells(state: AgpsState, status: Status, waits: bool, e: Event, h: int): seq<Obs> {
    match e
    case Request(g, _) => if g == h && state == StateAcquired then [AtlOpen(h, true)] else []
    case Release(g) => if g == h && status != Unlisted && !waits then [AtlClose(h)] else []
    case Granted => if state == StatePending && status == IsActive then [AtlOpen(h, true)] else []
    case Released =>
      if (state == StateAcquired && status != Unlisted) || (state == StateReleasing && status == IsInactive)
      then [AtlClose(h)] else []
    case Denied =>
      if state == StatePending && status != Unlisted then [AtlOpen(h, false)]
      else if state == StateReleasing && status == IsInactive then [AtlClose(h)]
      else []
    case ModemRestart => []
  }

  /** Where it leaves the handle. */
  function StatusAfter(state: AgpsState, status: Status, waits: bool, e: Event, h: int): Status {
    match e
    case Request(g, _) => if g == h && status == Unlisted then IsActive else status
    case Release(g) => if g != h || status == Unlisted then status else if waits then IsInactive else Unlisted
    case Granted => status
    case Released =>
      if state == StateAcquired || (state == StateReleasing && status == IsInactive) then Unlisted else status
    case Denied =>
      if state == StatePending || (state == StateReleasing && status == IsInactive) then Unlisted else status
    case ModemRestart => Unlisted
  }

  /** Some handle is active, or listed at all. */
  ghost predicate SomeActive(subs: List<Subscriber>) {
    exists g :: StatusOf(subs, g) == IsActive
  }

  ghost predicate SomeListed(subs: List<Subscriber>) {
    exists g :: StatusOf(subs, g) != Unlisted
  }

  ghost function FinishedState(after: Machine): (AgpsState, seq<Obs>) {
    if SomeActive(after.subs) then (StatePending, [ConnRequest]) else (StateReleased, [])
  }

  /** What an event that leaves after makes of the state, and whether the connection is
      requested or released. */
  ghost function StateAfter(state: AgpsState, e: Event, after: Machine): (AgpsState, seq<Obs>) {
    match e
    case Request(_, _) => if state == StateReleased then (StatePending, [ConnRequest]) else (state, [])
    case Release(_) =>
      if (state == StatePending || state == StateAcquired) && !SomeActive(after.subs)
      then (if SomeListed(after.subs) then StateReleasing else StateReleased, [ConnRelease])
      else (state, [])
    case Granted => (if state == StatePending then StateAcquired else state, [])
    case Released =>
      if state == StateAcquired then (StateReleased, [])
      else if state == StateReleasing then FinishedState(after)
      else (state, [])
    case Denied =>
      if state == StatePending then (StateReleased, [])
      else if state == StateReleasing then FinishedState(after)
      else (state, [])
    case ModemRestart => (StateReleased, [ConnRelease])
  }

  // ---------- Lists ----------

  lemma {:induction false} AnyActiveIs(subs: List<Subscriber>)
    requires Distinct(subs)
    ensures AnyActive(subs) <==> SomeActive(subs)
  {
    if subs.Snoc? {
      AnyActiveIs(subs.front);
      assert StatusOf(subs, subs.last.handle) == StatusIn(subs.last);
      if g :| StatusOf(subs, g) == IsActive {
        assert g == subs.last.handle || StatusOf(subs.front, g) == IsActive;
      }
      if g :| StatusOf(subs.front, g) == IsActive {
        assert StatusOf(subs, g) == IsActive;
      }
    }
  }

  lemma NilIs(subs: List<Subscriber>)
    ensures subs == Nil <==> !SomeListed(subs)
  {
    if subs.Snoc? {
      assert StatusOf(subs, subs.last.handle) != Unlisted;
    }
  }

  lemma {:induction false} LookupWithout(subs: List<Subscriber>, who: Selection, h: int)
    requires Distinct(subs) && Listed(Without(subs, who), h)
    ensures Listed(subs, h) && Lookup(Without(subs, who), h) == Lookup(subs, h)
  {
    WithoutStatus(subs, who, h);
    if Selects(who, subs.last) {
      WithoutStatus(subs.front, who, h);
      LookupWithout(subs.front, who, h);
    } else if subs.last.handle != h {
      LookupWithout(subs.front, who, h);
    }
  }

  lemma {:induction false} LookupDeactivate(subs: List<Subscriber>, g: int, h: int)
    requires Listed(Deactivate(subs, g), h)
    ensures Listed(subs, h) && Lookup(Deactivate(subs, g), h).waitForClose == Lookup(subs, h).waitForClose
  {
    if subs.last.handle != h {
      LookupDeactivate(subs.front, g, h);
    }
  }

  // ---------- A round of callbacks ----------

  lemma {:induction false} RoundMisses(t: List<Obs>, subs: List<Subscriber>, who: Selection, note: Note, h: int)
    requires Distinct(subs) && !Picks(who, StatusOf(subs, h), h)
    ensures Heard(Callbacks(t, subs, who, note), h) == Heard(t, h)
  {
    if subs.Snoc? {
      RoundMisses(t, subs.front, who, note, h);
    }
  }

  lemma {:induction false} RoundReaches(t: List<Obs>, subs: List<Subscriber>, who: Selection, note: Note, h: int)
    requires Distinct(subs) && Picks(who, StatusOf(subs, h), h)
    ensures Heard(Callbacks(t, subs, who, note), h) == Heard(t, h) + [Callback(note, h)]
  {
    if subs.last.handle == h {
      RoundMisses(t, subs.front, who, note, h);
    } else {
      RoundReaches(t, subs.front, who, note, h);
    }
  }

  lemma RoundIs(t: List<Obs>, subs: List<Subscriber>, who: Selection, note: Note, h: int)
    requires Distinct(subs)
    ensures Heard(Callbacks(t, subs, who, note), h) ==
              Heard(t, h) + if Picks(who, StatusOf(subs, h), h) then [Callback(note, h)] else []
  {
    if Picks(who, StatusOf(subs, h), h) {
      RoundReaches(t, subs, who, note, h);
    } else {
      RoundMisses(t, subs, who, note, h);
    }
  }

  lemma {:induction false} RoundIsNoCall(t: List<Obs>, subs: List<Subscriber>, who: Selection, note: Note, h: int)
    ensures ConnCalls(Callbacks(t, subs, who, note)) == ConnCalls(t)
    ensures WaitsIn(Callbacks(t, subs, who, note), h) == WaitsIn(t, h)
  {
    if subs.Snoc? {
      RoundIsNoCall(t, subs.front, who, note, h);
    }
  }

  // ---------- One event, one handle ----------

  /** The list remembers what the request asked for. */
  ghost predicate WaitFits(m: Machine, h: int) {
    Listed(m.subs, h) ==> Lookup(m.subs, h).waitForClose == WaitsIn(m.trace, h)
  }

  /** The event does to the handle what it should. */
  ghost predicate Exact(m: Machine, e: Event, h: int) {
    var after, status, waits := Step(m, e), StatusOf(m.subs, h), WaitsIn(m.trace, h);
    && Heard(after.trace, h) == Heard(m.trace, h) + Tells(m.state, status, waits, e, h)
    && StatusOf(after.subs, h) == StatusAfter(m.state, status, waits, e, h)
  }

  lemma RequestExact(m: Machine, e: Event, h: int)
    requires e.Request? && Shape(m) && EpisodeFits(m, h) && WaitFits(m, h)
    ensures Exact(m, e, h) && WaitFits(Step(m, e), h)
  {
    AddStatus(m.subs, Subscriber(e.handle, e.waits, false), h);
  }

  lemma LeaveExact(m: Machine, g: int, h: int)
    requires Distinct(m.subs) && Listed(m.subs, g) && WaitFits(m, g) && WaitFits(m, h)
    ensures var left, waits := Leave(m, Lookup(m.subs, g)), WaitsIn(m.trace, g);
      && Heard(left.trace, h) == Heard(m.trace, h) + (if g == h && !waits then [AtlClose(h)] else [])
      && StatusOf(left.subs, h) ==
           (if g != h then StatusOf(m.subs, h) else if waits then IsInactive else Unlisted)
      && ConnCalls(left.trace) == ConnCalls(m.trace) && left.state == m.state && Distinct(left.subs)
      && WaitFits(left, h)
  {
    if WaitsIn(m.trace, g) {
      DeactivateStatus(m.subs, g, h);
      DeactivateKeepsDistinct(m.subs, g);
      if Listed(Deactivate(m.subs, g), h) {
        LookupDeactivate(m.subs, g, h);
      }
    } else {
      WithoutStatus(m.subs, Handle(g), h);
      WithoutKeepsDistinct(m.subs, Handle(g));
      if Listed(Without(m.subs, Handle(g)), h) {
        LookupWithout(m.subs, Handle(g), h);
      }
    }
  }

  lemma {:induction false} DeactivateKeepsDistinct(subs: List<Subscriber>, g: int)
    requires Distinct(subs)
    ensures Distinct(Deactivate(subs, g))
  {
    if subs.Snoc? {
      DeactivateKeepsDistinct(subs.front, g);
      DeactivateStatus(subs.front, g, subs.last.handle);
    }
  }

  lemma {:induction false} WithoutKeepsDistinct(subs: List<Subscriber>, who: Selection)
    requires Distinct(subs)
    ensures Distinct(Without(subs, who))
  {
    if subs.Snoc? {
      WithoutKeepsDistinct(subs.front, who);
      WithoutStatus(subs.front, who, subs.last.handle);
    }
  }

  lemma ReleaseExact(m: Machine, e: Event, h: int)
    requires e.Release? && Inv(m) && WaitFits(m, e.handle) && WaitFits(m, h)
    ensures Exact(m, e, h) && WaitFits(Step(m, e), h)
  {
    assert EpisodeFits(m, e.handle);
    if Listed(m.subs, e.handle) {
      LeaveExact(Emit(m, In(e)), e.handle, h);
    }
  }

  lemma GrantedExact(m: Machine, h: int)
    requires Shape(m) && WaitFits(m, h)
    ensures Exact(m, Granted, h) && WaitFits(Step(m, Granted), h)
  {
    var t := Snoc(m.trace, In(Granted));
    RoundIs(t, m.subs, Active, NoteGranted, h);
    RoundIsNoCall(t, m.subs, Active, NoteGranted, h);
  }

  lemma AnswerExact(m: Machine, e: Event, h: int)
    requires (e == Released || e == Denied) && Shape(m) && WaitFits(m, h)
    ensures Exact(m, e, h) && WaitFits(Step(m, e), h)
  {
    var t := Snoc(m.trace, In(e));
    var who := if m.state == StateReleasing then Inactive else All;
    var note := if m.state == StatePending then NoteDenied else NoteClosed;
    RoundIs(t, m.subs, who, note, h);
    RoundIsNoCall(t, m.subs, who, note, h);
    WithoutStatus(m.subs, who, h);
    if Listed(Without(m.subs, who), h) {
      LookupWithout(m.subs, who, h);
    }
  }

  lemma StepExact(m: Machine, e: Event, h: int)
    requires Inv(m) && forall g :: WaitFits(m, g)
    ensures Exact(m, e, h) && WaitFits(Step(m, e), h)
  {
    assert EpisodeFits(m, h) && WaitFits(m, h);
    match e
    case Request(_, _) => RequestExact(m, e, h);
    case Release(g) => assert WaitFits(m, g); ReleaseExact(m, e, h);
    case Granted => GrantedExact(m, h);
    case ModemRestart =>
    case _ => AnswerExact(m, e, h);
  }

  // ---------- One event, the machine ----------

  /** The event moves the machine and calls on the connection as it should; a call is the
      last thing that it does. */
  ghost predicate MovesExactly(m: Machine, e: Event) {
    var after := Step(m, e);
    var (state, calls) := StateAfter(m.state, e, after);
    && after.state == state && ConnCalls(after.trace) == ConnCalls(m.trace) + calls
    && (calls != [] ==> after.trace.Snoc? && after.trace.last == calls[0])
  }

  lemma UnusedMoves(left: Machine)
    requires Distinct(left.subs)
    ensures var after := ReleaseIfUnused(left);
      && after.subs == left.subs
      && if SomeActive(left.subs) then after == left
         else after.state == (if SomeListed(left.subs) then StateReleasing else StateReleased)
              && after.trace == Snoc(left.trace, ConnRelease)
  {
    AnyActiveIs(left.subs);
    NilIs(left.subs);
  }

  lemma ReleaseMoves(m: Machine, e: Event)
    requires e.Release? && Inv(m) && WaitFits(m, e.handle)
    ensures MovesExactly(m, e)
  {
    var seen := Emit(m, In(e));
    assert EpisodeFits(m, e.handle);
    AnyActiveIs(m.subs);
    if Listed(m.subs, e.handle) {
      var left := Leave(seen, Lookup(m.subs, e.handle));
      LeaveExact(seen, e.handle, e.handle);
      if m.state == StatePending || m.state == StateAcquired {
        UnusedMoves(left);
      } else {
        ReleasingStays(m, e.handle);
      }
    }
  }

  lemma ReleasingStays(m: Machine, g: int)
    requires Shape(m) && m.state == StateReleasing && Listed(m.subs, g)
    ensures Leave(Emit(m, In(Release(g))), Lookup(m.subs, g)).subs != Nil
  {
    if Lookup(m.subs, g).waitForClose {
      DeactivateShape(m.subs, g);
    } else {
      InactiveStays(m.subs, g);
    }
  }

  lemma AnswerMoves(m: Machine, e: Event)
    requires (e == Released || e == Denied) && Shape(m)
    ensures MovesExactly(m, e)
  {
    var t := Snoc(m.trace, In(e));
    var who := if m.state == StateReleasing then Inactive else All;
    var note := if m.state == StatePending then NoteDenied else NoteClosed;
    RoundIsNoCall(t, m.subs, who, note, 0);
    WithoutKeepsDistinct(m.subs, who);
    AnyActiveIs(Without(m.subs, who));
  }

  lemma StepMoves(m: Machine, e: Event)
    requires Inv(m) && forall g :: WaitFits(m, g)
    ensures MovesExactly(m, e)
  {
    match e
    case Release(g) => assert WaitFits(m, g); ReleaseMoves(m, e);
    case Granted => RoundIsNoCall(Snoc(m.trace, In(e)), m.subs, Active, NoteGranted, 0);
    case Released => AnswerMoves(m, e);
    case Denied => AnswerMoves(m, e);
    case _ =>
  }

  // ---------- All runs ----------

  lemma {:induction false} RunFits(es: seq<Event>)
    ensures Inv(RunFrom(INITIAL, es)) && forall g :: WaitFits(RunFrom(INITIAL, es), g)
  {
    InitialInv();
    if es != [] {
      var m, e := RunFrom(INITIAL, es[..|es|-1]), es[|es|-1];
      RunFits(es[..|es|-1]);
      StepKeepsInv(m, e);
      forall g ensures WaitFits(Step(m, e), g) {
        StepExact(m, e, g);
      }
    }
  }

  /** After any run, any event tells each handle, and leaves each listed, exactly as the
      tables say, and moves the machine and its connection so. */
  lemma EveryEventIsExact(es: seq<Event>, e: Event, h: int)
    ensures Exact(RunFrom(INITIAL, es), e, h)
    ensures MovesExactly(RunFrom(INITIAL, es), e)
  {
    RunFits(es);
    StepExact(RunFrom(INITIAL, es), e, h);
    StepMoves(RunFrom(INITIAL, es), e);
  }

  // ---------- Waiting for the close ----------

  /** Another handle than h is active. */
  ghost predicate OthersActive(m: Machine, h: int) {
    exists g :: g != h && StatusOf(m.subs, g) == IsActive
  }

  /** An active subscriber that waits for the close is released: it is told nothing, stays
      listed as inactive, and unless others are active the connection is released, or is
      being released already. */
  lemma WaiterIsReleased(es: seq<Event>, h: int)
    requires StatusOf(RunFrom(INITIAL, es).subs, h) == IsActive && WaitsIn(RunFrom(INITIAL, es).trace, h)
    ensures var m := RunFrom(INITIAL, es);
            var after := Step(m, Release(h));
      && StatusOf(after.subs, h) == IsInactive && Heard(after.trace, h) == Heard(m.trace, h)
      && after.state == (if OthersActive(m, h) then m.state else StateReleasing)
      && ConnCalls(after.trace) == ConnCalls(m.trace) +
           if OthersActive(m, h) || m.state == StateReleasing then [] else [ConnRelease]
  {
    var m := RunFrom(INITIAL, es);
    var after := Step(m, Release(h));
    EveryEventIsExact(es, Release(h), h);
    RunFits(es);
    assert EpisodeFits(m, h);
    assert SomeListed(after.subs);
    OthersStay(es, h);
  }

  lemma OthersStay(es: seq<Event>, h: int)
    requires StatusOf(RunFrom(INITIAL, es).subs, h) == IsActive
    ensures SomeActive(Step(RunFrom(INITIAL, es), Release(h)).subs) <==> OthersActive(RunFrom(INITIAL, es), h)
  {
    var m := RunFrom(INITIAL, es);
    forall g ensures StatusOf(Step(m, Release(h)).subs, g) == IsActive <==> g != h && StatusOf(m.subs, g) == IsActive {
      EveryEventIsExact(es, Release(h), g);
    }
  }

  /** One that does not wait is closed and unlisted in that very step. */
  lemma OtherIsReleased(es: seq<Event>, h: int)
    requires Listed(RunFrom(INITIAL, es).subs, h) && !WaitsIn(RunFrom(INITIAL, es).trace, h)
    ensures var m := RunFrom(INITIAL, es);
            var after := Step(m, Release(h));
      !Listed(after.subs, h) && Heard(after.trace, h) == Heard(m.trace, h) + [AtlClose(h)]
  {
    EveryEventIsExact(es, Release(h), h);
  }

  /** The events that end the wait. */
  predicate Closes(state: AgpsState, e: Event) {
    match e
    case ModemRestart => true
    case Released => state == StateReleasing || state == StateAcquired
    case Denied => state == StateReleasing || state == StatePending
    case _ => false
  }

  /** Events after a run none of which ends the wait of h or asks for it anew. */
  ghost predicate KeepsWaiting(es: seq<Event>, more: seq<Event>, h: int) {
    more != [] ==>
      var n := |more| - 1;
      && KeepsWaiting(es, more[..n], h)
      && !Closes(RunFrom(INITIAL, es + more[..n]).state, more[n]) && !(more[n].Request? && more[n].handle == h)
  }

  lemma {:induction false} WaiterHearsNothing(es: seq<Event>, more: seq<Event>, h: int)
    requires StatusOf(RunFrom(INITIAL, es).subs, h) == IsInactive && WaitsIn(RunFrom(INITIAL, es).trace, h)
    requires KeepsWaiting(es, more, h)
    ensures var m := RunFrom(INITIAL, es + more);
      && StatusOf(m.subs, h) == IsInactive && WaitsIn(m.trace, h)
      && Heard(m.trace, h) == Heard(RunFrom(INITIAL, es).trace, h)
  {
    if more == [] {
      assert es + more == es;
    } else {
      var n := |more| - 1;
      WaiterHearsNothing(es, more[..n], h);
      EveryEventIsExact(es + more[..n], more[n], h);
      RunOneMore(es, more);
      StillWaits(es + more[..n], more[n], h);
    }
  }

  lemma RunOneMore(es: seq<Event>, more: seq<Event>)
    requires more != []
    ensures RunFrom(INITIAL, es + more) == Step(RunFrom(INITIAL, es + more[..|more|-1]), more[|more|-1])
  {
    var front, last := more[..|more|-1], more[|more|-1];
    assert es + more == (es + front) + [last];
    RunGoesOn(es + front, last);
  }

  lemma RunGoesOn(es: seq<Event>, e: Event)
    ensures RunFrom(INITIAL, es + [e]) == Step(RunFrom(INITIAL, es), e)
  {
    assert (es + [e])[..|es|] == es;
  }

  lemma StillWaits(es: seq<Event>, e: Event, h: int)
    requires var m := RunFrom(INITIAL, es);
      Listed(m.subs, h) && WaitsIn(m.trace, h) && Listed(Step(m, e).subs, h)
    ensures WaitsIn(Step(RunFrom(INITIAL, es), e).trace, h)
  {
    var m := RunFrom(INITIAL, es);
    var t := Snoc(m.trace, In(e));
    RunFits(es);
    assert EpisodeFits(m, h);
    RoundIsNoCall(t, m.subs, Active, NoteGranted, h);
    RoundIsNoCall(t, m.subs, All, NoteClosed, h);
    RoundIsNoCall(t, m.subs, All, NoteDenied, h);
    RoundIsNoCall(t, m.subs, Inactive, NoteClosed, h);
  }

  /** The whole life of a wait. A subscriber that waits for the close is released. However
      the machine goes on, it is told nothing and stays listed until an event comes that
      ends the wait; that event makes exactly one closing callback to it, unless it is a
      modem restart, and unlists it. */
  lemma EveryWaiterIsClosed(es: seq<Event>, h: int, more: seq<Event>, end: Event)
    requires StatusOf(RunFrom(INITIAL, es).subs, h) == IsActive && WaitsIn(RunFrom(INITIAL, es).trace, h)
    requires KeepsWaiting(es + [Release(h)], more, h)
    requires Closes(RunFrom(INITIAL, es + [Release(h)] + more).state, end)
    ensures var told, m := Heard(RunFrom(INITIAL, es).trace, h), RunFrom(INITIAL, es + [Release(h)] + more);
            var after := Step(m, end);
      && StatusOf(m.subs, h) == IsInactive && Heard(m.trace, h) == told
      && !Listed(after.subs, h)
      && Heard(after.trace, h) == told +
           if end == ModemRestart then [] else if m.state == StatePending then [AtlOpen(h, false)] else [AtlClose(h)]
  {
    var released := es + [Release(h)];
    WaiterIsReleased(es, h);
    RunOneMore(es, [Release(h)]);
    assert es + [Release(h)][..0] == es;
    StillWaits(es, Release(h), h);
    WaiterHearsNothing(released, more, h);
    EveryEventIsExact(released + more, end, h);
    assert forall t: seq<Obs> :: t + [] == t;
  }
}
