/** The AGPS data-call state machine as a function of the events it is given, and
    what holds of every run. Module Agps shows that the machine with its mutable
    subscriber list computes these functions. */
module AgpsRuns {

  /** Lists that grow at the back, for the subscribers and for what has happened. */
  datatype List<+T> = Nil | Snoc(front: List<T>, last: T)

  datatype AgpsState = StateReleased | StatePending | StateAcquired | StateReleasing

  datatype Subscriber = Subscriber(handle: int, waitForClose: bool, inactive: bool)

  /** Requests and releases of a handle, answers from the framework, modem restart. */
  datatype Event = Request(handle: int, waits: bool) | Release(handle: int) | Granted | Released | Denied | ModemRestart

  /** What can be seen from outside, in order: each event handled and each callback made. */
  datatype Obs =
    | In(event: Event)
    | AtlOpen(handle: int, success: bool)
    | AtlClose(handle: int)
    | ConnRequest
    | ConnRelease

  datatype Machine = Machine(state: AgpsState, subs: List<Subscriber>, trace: List<Obs>)

  const INITIAL := Machine(StateReleased, Nil, Nil)

  // ---------- The subscriber list ----------

  datatype Selection = All | Inactive | Active | Handle(h: int)

  predicate Selects(who: Selection, s: Subscriber) {
    match who
    case All => true
    case Inactive => s.inactive
    case Active => !s.inactive
    case Handle(h) => s.handle == h
  }

  datatype Status = Unlisted | IsActive | IsInactive

  function StatusIn(s: Subscriber): Status {
    if s.inactive then IsInactive else IsActive
  }

  function StatusOf(subs: List<Subscriber>, h: int): Status {
    match subs
    case Nil => Unlisted
    case Snoc(front, last) => if last.handle == h then StatusIn(last) else StatusOf(front, h)
  }

  predicate Listed(subs: List<Subscriber>, h: int) {
    StatusOf(subs, h) != Unlisted
  }

  predicate AnyActive(subs: List<Subscriber>) {
    subs.Snoc? && (!subs.last.inactive || AnyActive(subs.front))
  }

  predicate AnyInactive(subs: List<Subscriber>) {
    subs.Snoc? && (subs.last.inactive || AnyInactive(subs.front))
  }

  function Add(subs: List<Subscriber>, s: Subscriber): List<Subscriber> {
    if Listed(subs, s.handle) then subs else Snoc(subs, s)
  }

  /** The list without the selected subscribers. */
  function Without(subs: List<Subscriber>, who: Selection): List<Subscriber> {
    match subs
    case Nil => Nil
    case Snoc(front, last) =>
      if Selects(who, last) then Without(front, who) else Snoc(Without(front, who), last)
  }

  function Deactivate(subs: List<Subscriber>, h: int): List<Subscriber> {
    match subs
    case Nil => Nil
    case Snoc(front, last) =>
      Snoc(Deactivate(front, h), if last.handle == h then last.(inactive := true) else last)
  }

  datatype Note = NoteGranted | NoteDenied | NoteClosed

  function Callback(note: Note, h: int): Obs {
    match note
    case NoteGranted => AtlOpen(h, true)
    case NoteDenied => AtlOpen(h, false)
    case NoteClosed => AtlClose(h)
  }

  /** The trace after one callback for each selected subscriber, in list order. */
  function Callbacks(t: List<Obs>, subs: List<Subscriber>, who: Selection, note: Note): List<Obs> {
    match subs
    case Nil => t
    case Snoc(front, last) =>
      if Selects(who, last) then Snoc(Callbacks(t, front, who, note), Callback(note, last.handle))
      else Callbacks(t, front, who, note)
  }

  // ---------- The event handlers ----------

  function NotifyAll(m: Machine, note: Note, delete: bool, who: Selection): Machine {
    m.(trace := Callbacks(m.trace, m.subs, who, note),
       subs := if delete then Without(m.subs, who) else m.subs)
  }

  function Emit(m: Machine, o: Obs): Machine {
    m.(trace := Snoc(m.trace, o))
  }

  function Subscribe(m: Machine, s: Subscriber): Machine {
    match m.state
    case StateReleased => Emit(m.(subs := Add(m.subs, s)), ConnRequest).(state := StatePending)
    case StatePending => m.(subs := Add(m.subs, s))
    case StateAcquired => Emit(m, AtlOpen(s.handle, true)).(subs := Add(m.subs, s))
    case StateReleasing => m.(subs := Add(m.subs, s))
  }

  /** The current subscriber either waits for the connection to close or is told
      at once and deleted. */
  function Leave(m: Machine, s: Subscriber): Machine {
    if s.waitForClose then m.(subs := Deactivate(m.subs, s.handle))
    else Emit(m, AtlClose(s.handle)).(subs := Without(m.subs, Handle(s.handle)))
  }

  function ReleaseIfUnused(m: Machine): Machine {
    if m.subs == Nil then Emit(m.(state := StateReleased), ConnRelease)
    else if !AnyActive(m.subs) then Emit(m.(state := StateReleasing), ConnRelease)
    else m
  }

  function Unsubscribe(m: Machine, s: Subscriber): Machine {
    match m.state
    case StateReleased => Emit(m, AtlClose(s.handle))
    case StatePending | StateAcquired =>
      ReleaseIfUnused(Leave(m, s))
    case StateReleasing =>
      var left := Leave(m, s);
      if left.subs == Nil then left.(state := StateReleased) else left
  }

  function HandleGranted(m: Machine): Machine {
    if m.state == StatePending then NotifyAll(m.(state := StateAcquired), NoteGranted, false, Active) else m
  }

  /** A release has completed: those who waited for it are closed, and if somebody
      subscribed meanwhile the connection is requested again. */
  function FinishReleasing(m: Machine): Machine {
    var closed := NotifyAll(m, NoteClosed, true, Inactive);
    if AnyActive(closed.subs) then Emit(closed.(state := StatePending), ConnRequest)
    else closed.(state := StateReleased)
  }

  function HandleReleased(m: Machine): Machine {
    match m.state
    case StateReleased => m
    case StateAcquired => NotifyAll(m.(state := StateReleased), NoteClosed, true, All)
    case StateReleasing => FinishReleasing(m)
    case StatePending => m
  }

  function HandleDenied(m: Machine): Machine {
    match m.state
    case StateReleased => m
    case StateAcquired => m
    case StateReleasing => FinishReleasing(m)
    case StatePending => NotifyAll(m.(state := StateReleased), NoteDenied, true, All)
  }

  function DropAll(m: Machine): Machine {
    Emit(m.(subs := Nil, state := StateReleased), ConnRelease)
  }

  /** One call through the manager: requestATL, releaseATL, reportAtlOpenSuccess,
      reportAtlClosed, reportAtlOpenFailed or handleModemSSR. (requestATL always makes
      a subscriber that waits.) */
  function Step(m0: Machine, e: Event): Machine {
    var m := Emit(m0, In(e));
    match e
    case Request(h, waits) => Subscribe(m, Subscriber(h, waits, false))
    case Release(h) =>
      if Listed(m.subs, h) then Unsubscribe(m, Lookup(m.subs, h)) else m
    case Granted => HandleGranted(m)
    case Released => HandleReleased(m)
    case Denied => HandleDenied(m)
    case ModemRestart => DropAll(m)
  }

  /** The subscriber listed with a handle. */
  function Lookup(subs: List<Subscriber>, h: int): (s: Subscriber)
    requires Listed(subs, h)
    ensures s.handle == h
  {
    if subs.last.handle == h then subs.last else Lookup(subs.front, h)
  }

  function RunFrom(m: Machine, es: seq<Event>): Machine {
    if es == [] then m else Step(RunFrom(m, es[..|es|-1]), es[|es|-1])
  }

  // ---------- Two observers that only watch the trace ----------

  /** The life of one handle: each request that finds it absent opens an episode,
      which one closing callback (ATL close, or ATL open with failure) ends, or
      modem restart without one. A callback outside an episode breaks the protocol. */
  datatype Episode = Absent | Waiting | Told | BrokenEpisode

  function NextEpisode(p: Episode, o: Obs, h: int): Episode {
    if p == BrokenEpisode then p
    else match o
      case In(e) =>
        if e == ModemRestart then Absent
        else if e.Request? && e.handle == h && p == Absent then Waiting
        else p
      case AtlOpen(h', success) =>
        if h' != h then p else if p == Absent then BrokenEpisode else if success then Told else Absent
      case AtlClose(h') =>
        if h' != h then p else if p == Absent then BrokenEpisode else Absent
      case ConnRequest => p
      case ConnRelease => p
  }

  function EpisodeOf(trace: List<Obs>, h: int): Episode {
    match trace
    case Nil => Absent
    case Snoc(before, o) => NextEpisode(EpisodeOf(before, h), o, h)
  }

  /** The data connection as the framework sees it: a request is allowed only when
      none is outstanding, a release only when one is or right after a restart. */
  datatype Connection = Idle | Requested | Open | Resetting | BrokenConnection

  function NextConnection(c: Connection, o: Obs): Connection {
    if c == BrokenConnection then c
    else match o
      case In(Granted) => if c == Requested then Open else c
      case In(Denied) => if c == Requested then Idle else c
      case In(Released) => if c == Open then Idle else c
      case In(ModemRestart) => Resetting
      case ConnRequest => if c == Idle then Requested else BrokenConnection
      case ConnRelease => if c == Idle then BrokenConnection else Idle
      case _ => c
  }

  function ConnectionOf(trace: List<Obs>): Connection {
    match trace
    case Nil => Idle
    case Snoc(before, o) => NextConnection(ConnectionOf(before), o)
  }

  // ---------- The invariant ----------

  ghost predicate Distinct(subs: List<Subscriber>) {
    subs.Snoc? ==> !Listed(subs.front, subs.last.handle) && Distinct(subs.front)
  }

  /** Only a subscriber that waits for the connection to close is ever inactive. */
  ghost predicate InactiveWait(subs: List<Subscriber>) {
    subs.Snoc? ==> (subs.last.inactive ==> subs.last.waitForClose) && InactiveWait(subs.front)
  }

  /** How the machine's state, a handle's place in the list and what the handle has
      been told since its episode began belong together: an active subscriber has
      been told GRANTED exactly when the machine is ACQUIRED. */
  ghost predicate Fits(state: AgpsState, status: Status, p: Episode) {
    match status
    case Unlisted => p == Absent
    case IsActive => p == if state == StateAcquired then Told else Waiting
    case IsInactive => p == Waiting || p == Told
  }

  ghost predicate EpisodeFits(m: Machine, h: int) {
    Fits(m.state, StatusOf(m.subs, h), EpisodeOf(m.trace, h))
  }

  ghost predicate Shape(m: Machine) {
    && Distinct(m.subs) && InactiveWait(m.subs)
    && (m.state == StateReleased <==> m.subs == Nil)
    && (m.state == StatePending || m.state == StateAcquired ==> AnyActive(m.subs))
    && (m.state == StateReleasing ==> AnyInactive(m.subs))
  }

  ghost predicate ConnectionFits(m: Machine) {
    ConnectionOf(m.trace) ==
      match m.state
      case StateReleased => Idle
      case StatePending => Requested
      case StateAcquired => Open
      case StateReleasing => Idle
  }

  ghost predicate Inv(m: Machine) {
    Shape(m) && ConnectionFits(m) && forall h :: EpisodeFits(m, h)
  }

  // ---------- The list operations, handle by handle ----------

  predicate Picks(who: Selection, status: Status, h: int) {
    match who
    case All => status != Unlisted
    case Inactive => status == IsInactive
    case Active => status == IsActive
    case Handle(g) => status != Unlisted && g == h
  }

  lemma {:induction false} WithoutStatus(subs: List<Subscriber>, who: Selection, h: int)
    requires Distinct(subs)
    ensures StatusOf(Without(subs, who), h) ==
              if Picks(who, StatusOf(subs, h), h) then Unlisted else StatusOf(subs, h)
  {
    if subs.Snoc? {
      WithoutStatus(subs.front, who, h);
    }
  }

  lemma {:induction false} WithoutShape(subs: List<Subscriber>, who: Selection)
    requires Distinct(subs) && InactiveWait(subs)
    ensures Distinct(Without(subs, who)) && InactiveWait(Without(subs, who))
    ensures who == All ==> Without(subs, who) == Nil
    ensures who == Inactive ==> !AnyInactive(Without(subs, who))
    ensures !AnyActive(Without(subs, who)) && !AnyInactive(Without(subs, who)) ==> Without(subs, who) == Nil
  {
    if subs.Snoc? {
      WithoutShape(subs.front, who);
      WithoutStatus(subs.front, who, subs.last.handle);
    }
  }

  lemma {:induction false} DeactivateStatus(subs: List<Subscriber>, g: int, h: int)
    ensures StatusOf(Deactivate(subs, g), h) ==
              if g == h && Listed(subs, h) then IsInactive else StatusOf(subs, h)
  {
    if subs.Snoc? {
      DeactivateStatus(subs.front, g, h);
    }
  }

  lemma {:induction false} DeactivateShape(subs: List<Subscriber>, g: int)
    requires Distinct(subs) && InactiveWait(subs) && (Listed(subs, g) ==> Lookup(subs, g).waitForClose)
    ensures Distinct(Deactivate(subs, g)) && InactiveWait(Deactivate(subs, g))
    ensures Deactivate(subs, g) == Nil <==> subs == Nil
    ensures AnyInactive(subs) || Listed(subs, g) ==> AnyInactive(Deactivate(subs, g))
  {
    if subs.Snoc? {
      assert Listed(subs.front, g) ==> Lookup(subs.front, g) == Lookup(subs, g);
      DeactivateShape(subs.front, g);
      DeactivateStatus(subs.front, g, subs.last.handle);
    }
  }

  lemma {:induction false} ActiveMeansAny(subs: List<Subscriber>, h: int)
    requires StatusOf(subs, h) == IsActive
    ensures AnyActive(subs)
  {
    if subs.last.handle != h {
      ActiveMeansAny(subs.front, h);
    }
  }

  // ---------- What the observers make of a round of callbacks ----------

  lemma {:induction false} CallbacksMiss(t: List<Obs>, subs: List<Subscriber>, who: Selection, note: Note, h: int)
    requires Distinct(subs) && !Picks(who, StatusOf(subs, h), h)
    ensures EpisodeOf(Callbacks(t, subs, who, note), h) == EpisodeOf(t, h)
  {
    if subs.Snoc? {
      CallbacksMiss(t, subs.front, who, note, h);
    }
  }

  lemma {:induction false} CallbacksReach(t: List<Obs>, subs: List<Subscriber>, who: Selection, note: Note, h: int)
    requires Distinct(subs) && Picks(who, StatusOf(subs, h), h)
    ensures EpisodeOf(Callbacks(t, subs, who, note), h) == NextEpisode(EpisodeOf(t, h), Callback(note, h), h)
  {
    if subs.last.handle == h {
      CallbacksMiss(t, subs.front, who, note, h);
    } else {
      CallbacksReach(t, subs.front, who, note, h);
    }
  }

  /** A round of callbacks is heard by exactly those it is meant for, once each. */
  lemma CallbacksHeard(t: List<Obs>, subs: List<Subscriber>, who: Selection, note: Note, h: int)
    requires Distinct(subs)
    ensures EpisodeOf(Callbacks(t, subs, who, note), h) ==
              if Picks(who, StatusOf(subs, h), h) then NextEpisode(EpisodeOf(t, h), Callback(note, h), h)
              else EpisodeOf(t, h)
  {
    if Picks(who, StatusOf(subs, h), h) {
      CallbacksReach(t, subs, who, note, h);
    } else {
      CallbacksMiss(t, subs, who, note, h);
    }
  }

  lemma {:induction false} CallbacksLeaveConnection(t: List<Obs>, subs: List<Subscriber>, who: Selection, note: Note)
    ensures ConnectionOf(Callbacks(t, subs, who, note)) == ConnectionOf(t)
  {
    if subs.Snoc? {
      CallbacksLeaveConnection(t, subs.front, who, note);
    }
  }

  // ---------- Every step keeps the invariant ----------

  lemma RequestKeepsShape(m: Machine, g: int, waits: bool)
    requires Shape(m) && ConnectionFits(m)
    ensures Shape(Step(m, Request(g, waits))) && ConnectionFits(Step(m, Request(g, waits)))
  {
  }

  lemma AddStatus(subs: List<Subscriber>, s: Subscriber, h: int)
    ensures StatusOf(Add(subs, s), h) ==
              if s.handle == h && !Listed(subs, h) then StatusIn(s) else StatusOf(subs, h)
  {
  }

  lemma RequestFits(m: Machine, g: int, waits: bool, h: int)
    requires EpisodeFits(m, h)
    ensures EpisodeFits(Step(m, Request(g, waits)), h)
  {
    AddStatus(m.subs, Subscriber(g, waits, false), h);
  }

  lemma GrantedFits(m: Machine, h: int)
    requires Shape(m) && ConnectionFits(m) && EpisodeFits(m, h)
    ensures Shape(Step(m, Granted)) && ConnectionFits(Step(m, Granted))
    ensures EpisodeFits(Step(m, Granted), h)
  {
    var t := Snoc(m.trace, In(Granted));
    CallbacksHeard(t, m.subs, Active, NoteGranted, h);
    CallbacksLeaveConnection(t, m.subs, Active, NoteGranted);
  }

  lemma FinishReleasingFits(m: Machine, e: Event, h: int)
    requires m.state == StateReleasing && Distinct(m.subs) && EpisodeFits(m, h) && (e == Released || e == Denied)
    ensures EpisodeFits(Step(m, e), h)
  {
    var t := Snoc(m.trace, In(e));
    CallbacksHeard(t, m.subs, Inactive, NoteClosed, h);
    WithoutStatus(m.subs, Inactive, h);
  }

  lemma CloseAllFits(m: Machine, e: Event, h: int)
    requires m.state != StateReleasing && Distinct(m.subs) && EpisodeFits(m, h) && (e == Released || e == Denied)
    ensures EpisodeFits(Step(m, e), h)
  {
    var t := Snoc(m.trace, In(e));
    CallbacksHeard(t, m.subs, All, if e == Denied then NoteDenied else NoteClosed, h);
    WithoutStatus(m.subs, All, h);
  }

  lemma AnswerKeepsShape(m: Machine, e: Event)
    requires Shape(m) && ConnectionFits(m) && (e == Released || e == Denied)
    ensures Shape(Step(m, e)) && ConnectionFits(Step(m, e))
  {
    var t := Snoc(m.trace, In(e));
    var who := if m.state == StateReleasing then Inactive else All;
    var note := if m.state == StatePending then NoteDenied else NoteClosed;
    CallbacksLeaveConnection(t, m.subs, who, note);
    WithoutShape(m.subs, who);
  }

  /** What holds between a subscriber's leaving and the machine's reaction to it. */
  ghost predicate LeftBehind(left: Machine, state: AgpsState, c: Connection, h: int) {
    && left.state == state && Distinct(left.subs) && InactiveWait(left.subs)
    && EpisodeFits(left, h) && ConnectionOf(left.trace) == c
    && (state == StateReleasing ==> AnyInactive(left.subs))
  }

  lemma WaitingLeaves(m: Machine, g: int, h: int)
    requires Shape(m) && EpisodeFits(m, h) && Listed(m.subs, g) && Lookup(m.subs, g).waitForClose
    ensures LeftBehind(Leave(m, Lookup(m.subs, g)), m.state, ConnectionOf(m.trace), h)
  {
    DeactivateStatus(m.subs, g, h);
    DeactivateShape(m.subs, g);
  }

  lemma NotWaitingLeaves(m: Machine, g: int, h: int)
    requires Shape(m) && EpisodeFits(m, h) && Listed(m.subs, g) && !Lookup(m.subs, g).waitForClose
    ensures LeftBehind(Leave(m, Lookup(m.subs, g)), m.state, ConnectionOf(m.trace), h)
  {
    WithoutStatus(m.subs, Handle(g), h);
    WithoutShape(m.subs, Handle(g));
    if m.state == StateReleasing {
      InactiveStays(m.subs, g);
    }
  }

  lemma {:induction false} InactiveStays(subs: List<Subscriber>, g: int)
    requires Distinct(subs) && InactiveWait(subs) && AnyInactive(subs)
    requires Listed(subs, g) && !Lookup(subs, g).waitForClose
    ensures AnyInactive(Without(subs, Handle(g)))
  {
    if subs.last.handle == g {
      WithoutAbsent(subs.front, g);
    } else if !subs.last.inactive {
      InactiveStays(subs.front, g);
    }
  }

  lemma {:induction false} WithoutAbsent(subs: List<Subscriber>, g: int)
    requires !Listed(subs, g)
    ensures Without(subs, Handle(g)) == subs
  {
    if subs.Snoc? {
      WithoutAbsent(subs.front, g);
    }
  }

  lemma UnusedFits(left: Machine, h: int)
    requires left.state == StatePending || left.state == StateAcquired
    requires LeftBehind(left, left.state, if left.state == StatePending then Requested else Open, h)
    ensures var after := ReleaseIfUnused(left); Shape(after) && ConnectionFits(after) && EpisodeFits(after, h)
  {
    if StatusOf(left.subs, h) == IsActive {
      ActiveMeansAny(left.subs, h);
    }
  }

  lemma ReleaseFits(m: Machine, g: int, h: int)
    requires Shape(m) && ConnectionFits(m) && EpisodeFits(m, h)
    ensures var after := Step(m, Release(g)); Shape(after) && ConnectionFits(after) && EpisodeFits(after, h)
  {
    var seen := Emit(m, In(Release(g)));
    if Listed(m.subs, g) {
      var left := Leave(seen, Lookup(m.subs, g));
      assert LeftBehind(left, m.state, ConnectionOf(m.trace), h) by {
        if Lookup(m.subs, g).waitForClose {
          WaitingLeaves(seen, g, h);
        } else {
          NotWaitingLeaves(seen, g, h);
        }
      }
      if m.state != StateReleasing {
        UnusedFits(left, h);
      }
    }
  }

  lemma RestartFits(m: Machine, h: int)
    requires EpisodeFits(m, h) && ConnectionFits(m)
    ensures Shape(Step(m, ModemRestart)) && ConnectionFits(Step(m, ModemRestart))
    ensures EpisodeFits(Step(m, ModemRestart), h)
  {
  }

  lemma StepFits(m: Machine, e: Event, h: int)
    requires Inv(m)
    ensures Shape(Step(m, e)) && ConnectionFits(Step(m, e)) && EpisodeFits(Step(m, e), h)
  {
    assert EpisodeFits(m, h);
    match e
    case Request(g, waits) => RequestFits(m, g, waits, h); RequestKeepsShape(m, g, waits);
    case Release(g) => ReleaseFits(m, g, h);
    case Granted => GrantedFits(m, h);
    case ModemRestart => RestartFits(m, h);
    case _ =>
      AnswerKeepsShape(m, e);
      if m.state == StateReleasing {
        FinishReleasingFits(m, e, h);
      } else {
        CloseAllFits(m, e, h);
      }
  }

  lemma StepKeepsInv(m: Machine, e: Event)
    requires Inv(m)
    ensures Inv(Step(m, e))
  {
    forall h ensures EpisodeFits(Step(m, e), h) {
      StepFits(m, e, h);
    }
    StepFits(m, e, 0);
  }

  lemma {:induction false} RunKeepsInv(m: Machine, es: seq<Event>)
    requires Inv(m)
    ensures Inv(RunFrom(m, es))
  {
    if es != [] {
      RunKeepsInv(m, es[..|es|-1]);
      StepKeepsInv(RunFrom(m, es[..|es|-1]), es[|es|-1]);
    }
  }

  // ---------- What every run promises ----------

  /** The structural promise, for any sequence of events since power-up: the state
      follows the list, and no connection request or release is ever sent out of turn. */
  lemma EveryRunIsSound(es: seq<Event>)
    ensures var m := RunFrom(INITIAL, es);
      && Distinct(m.subs)
      && (m.state == StateReleased <==> m.subs == Nil)
      && (m.state == StatePending || m.state == StateAcquired ==> AnyActive(m.subs))
      && (m.state == StateReleasing ==> AnyInactive(m.subs))
      && ConnectionOf(m.trace) != BrokenConnection
  {
    InitialInv();
    RunKeepsInv(INITIAL, es);
  }

  /** Conservation, for any handle and any run: callbacks come only inside an episode,
      each episode that is over was closed by exactly one closing callback or by a
      modem restart, and the open episodes are those of the listed subscribers. Of
      these the active ones have been told GRANTED exactly when the machine holds
      the connection. */
  lemma EveryRunConserves(es: seq<Event>, h: int)
    ensures var m := RunFrom(INITIAL, es); var p := EpisodeOf(m.trace, h);
      && p != BrokenEpisode
      && (p == Absent <==> !Listed(m.subs, h))
      && (StatusOf(m.subs, h) == IsActive ==> (p == Told <==> m.state == StateAcquired))
  {
    InitialInv();
    RunKeepsInv(INITIAL, es);
    assert EpisodeFits(RunFrom(INITIAL, es), h);
  }

  /** While the connection is being released nobody's leaving empties the list, so that
      the code's branch for that case is never taken. */
  lemma ReleasingOutlivesLeaving(es: seq<Event>, g: int)
    requires RunFrom(INITIAL, es).state == StateReleasing
    ensures Step(RunFrom(INITIAL, es), Release(g)).state == StateReleasing
  {
    InitialInv();
    RunKeepsInv(INITIAL, es);
    var m := RunFrom(INITIAL, es);
    var seen := Emit(m, In(Release(g)));
    assert EpisodeFits(m, g);
    if Listed(m.subs, g) {
      if Lookup(m.subs, g).waitForClose {
        WaitingLeaves(seen, g, g);
      } else {
        NotWaitingLeaves(seen, g, g);
      }
    }
  }

  lemma InitialInv()
    ensures Inv(INITIAL)
  {
    assert forall h :: EpisodeFits(INITIAL, h);
  }

  // ---------- A subscriber that arrives while the connection is released ----------

  /** h is subscribed and unanswered, and the machine is in state s. */
  ghost predicate Awaits(m: Machine, h: int, s: AgpsState) {
    Inv(m) && m.state == s && StatusOf(m.subs, h) == IsActive
  }

  /** Events that neither take h away nor answer the given state. */
  predicate Idles(e: Event, h: int, s: AgpsState) {
    && e != ModemRestart && e != Release(h)
    && match s
       case StateReleasing => e != Released && e != Denied
       case StatePending => e != Granted && e != Denied
       case _ => false
  }

  lemma IdleStepAwaits(m: Machine, h: int, s: AgpsState, e: Event)
    requires Awaits(m, h, s) && Idles(e, h, s)
    ensures Awaits(Step(m, e), h, s)
  {
    StepKeepsInv(m, e);
    if e.Request? {
      AddStatus(m.subs, Subscriber(e.handle, e.waits, false), h);
    } else if e.Release? && Listed(m.subs, e.handle) {
      var left := Leave(Emit(m, In(e)), Lookup(m.subs, e.handle));
      DeactivateStatus(m.subs, e.handle, h);
      WithoutStatus(m.subs, Handle(e.handle), h);
      ActiveMeansAny(left.subs, h);
    }
  }

  lemma {:induction false} IdleRunAwaits(m: Machine, h: int, s: AgpsState, es: seq<Event>)
    requires Awaits(m, h, s) && forall i :: 0 <= i < |es| ==> Idles(es[i], h, s)
    ensures Awaits(RunFrom(m, es), h, s)
  {
    if es != [] {
      IdleRunAwaits(m, h, s, es[..|es|-1]);
      IdleStepAwaits(RunFrom(m, es[..|es|-1]), h, s, es[|es|-1]);
    }
  }

  /** o was observed between the traces earlier and t. */
  ghost predicate HeardSince(t: List<Obs>, earlier: List<Obs>, o: Obs) {
    t != earlier && t.Snoc? && (t.last == o || HeardSince(t.front, earlier, o))
  }

  lemma WaiterIsKept(m: Machine, h: int, e: Event)
    requires Awaits(m, h, StateReleasing) && (e == Released || e == Denied)
    ensures Awaits(Step(m, e), h, StatePending)
    ensures Step(m, e).trace == Snoc(Callbacks(Snoc(m.trace, In(e)), m.subs, Inactive, NoteClosed), ConnRequest)
  {
    StepKeepsInv(m, e);
    assert EpisodeFits(m, h);
    WithoutStatus(m.subs, Inactive, h);
    ActiveMeansAny(Without(m.subs, Inactive), h);
  }

  lemma WaiterHears(m: Machine, h: int, e: Event)
    requires Awaits(m, h, StatePending) && (e == Granted || e == Denied)
    ensures EpisodeOf(m.trace, h) == Waiting
    ensures HeardSince(Step(m, e).trace, m.trace, AtlOpen(h, e == Granted))
    ensures EpisodeOf(Step(m, e).trace, h) == if e == Granted then Told else Absent
  {
    assert EpisodeFits(m, h);
    var who, note := if e == Granted then Active else All, if e == Granted then NoteGranted else NoteDenied;
    var t := Snoc(m.trace, In(e));
    CalledBack(t, m.trace, m.subs, who, note, h);
    CallbacksHeard(t, m.subs, who, note, h);
  }

  /** An active subscriber in RELEASING outlives the RELEASED or DENIED that ends the
      release, which makes the machine request the connection again; the next GRANTED
      or DENIED is its answer, and it hears nothing before that. */
  lemma WaiterIsAnswered(m: Machine, h: int, es1: seq<Event>, e1: Event, es2: seq<Event>, e2: Event)
    requires Awaits(m, h, StateReleasing)
    requires forall i :: 0 <= i < |es1| ==> Idles(es1[i], h, StateReleasing)
    requires e1 == Released || e1 == Denied
    requires forall i :: 0 <= i < |es2| ==> Idles(es2[i], h, StatePending)
    requires e2 == Granted || e2 == Denied
    ensures var m1 := Step(RunFrom(m, es1), e1);
            var m2 := RunFrom(m1, es2);
            var m3 := Step(m2, e2);
      && Awaits(m1, h, StatePending) && m1.trace.Snoc? && m1.trace.last == ConnRequest
      && Awaits(m2, h, StatePending) && EpisodeOf(m2.trace, h) == Waiting
      && HeardSince(m3.trace, m2.trace, AtlOpen(h, e2 == Granted))
      && EpisodeOf(m3.trace, h) == if e2 == Granted then Told else Absent
  {
    IdleRunAwaits(m, h, StateReleasing, es1);
    WaiterIsKept(RunFrom(m, es1), h, e1);
    var m1 := Step(RunFrom(m, es1), e1);
    IdleRunAwaits(m1, h, StatePending, es2);
    WaiterHears(RunFrom(m1, es2), h, e2);
  }

  lemma {:induction false} CalledBack(t: List<Obs>, was: List<Obs>, subs: List<Subscriber>,
                                         who: Selection, note: Note, h: int)
    requires StatusOf(subs, h) == IsActive && (who == Active || who == All)
    requires t.Snoc? && t.front == was
    ensures HeardSince(Callbacks(t, subs, who, note), was, Callback(note, h))
  {
    CallbacksGrow(t, was, subs, who, note);
    if subs.last.handle != h {
      CalledBack(t, was, subs.front, who, note, h);
    }
  }

  lemma {:induction false} CallbacksGrow(t: List<Obs>, was: List<Obs>, subs: List<Subscriber>,
                                            who: Selection, note: Note)
    requires Length(was) < Length(t)
    ensures Length(was) < Length(Callbacks(t, subs, who, note))
  {
    if subs.Snoc? {
      CallbacksGrow(t, was, subs.front, who, note);
    }
  }

  ghost function Length<T>(l: List<T>): nat {
    if l.Nil? then 0 else 1 + Length(l.front)
  }
}
