/** The AGPS state machine and manager as they run: a list of subscriber objects
    that handlers add to, erase from and mark inactive in place. Every method is
    proved to compute the corresponding function of AgpsRuns. Callbacks are
    recorded, in order, in the ghost trace. */
module Agps {
  import opened AgpsRuns

  class AgpsSubscriber {
    const mConnHandle: int
    const mWaitForCloseComplete: bool
    var mIsInactive: bool

    constructor (connHandle: int, waitForCloseComplete: bool, isInactive: bool)
      ensures Value() == Subscriber(connHandle, waitForCloseComplete, isInactive)
    {
      mConnHandle, mWaitForCloseComplete, mIsInactive := connHandle, waitForCloseComplete, isInactive;
    }

    function Value(): Subscriber
      reads this
    {
      Subscriber(mConnHandle, mWaitForCloseComplete, mIsInactive)
    }

    predicate Equals(s: AgpsSubscriber) {
      mConnHandle == s.mConnHandle
    }

    method Clone() returns (s: AgpsSubscriber)
      ensures fresh(s) && s.Value() == Value()
    {
      s := new AgpsSubscriber(mConnHandle, mWaitForCloseComplete, mIsInactive);
    }
  }

  ghost function Values(list: seq<AgpsSubscriber>): (v: seq<Subscriber>)
    reads list
    ensures |v| == |list| && forall i :: 0 <= i < |list| ==> v[i] == list[i].Value()
  {
    seq(|list|, i requires 0 <= i < |list| reads list => list[i].Value())
  }

  ghost function ListOf(subs: seq<Subscriber>): List<Subscriber> {
    if subs == [] then Nil else Snoc(ListOf(subs[..|subs|-1]), subs[|subs|-1])
  }

  lemma NextPlace(subs: seq<Subscriber>, i: nat)
    requires i < |subs|
    ensures ListOf(subs[..i+1]) == Snoc(ListOf(subs[..i]), subs[i])
  {
    assert subs[..i+1][..i] == subs[..i];
  }

  class AgpsStateMachine {
    var mState: AgpsState
    var mSubscriberList: seq<AgpsSubscriber>
    ghost var trace: List<Obs>

    ghost function Abs(): Machine
      reads Repr()
    {
      Machine(mState, Subs(), trace)
    }

    ghost function Subs(): List<Subscriber>
      reads Repr()
    {
      ListOf(Values(mSubscriberList))
    }

    /** The first entries of the list. */
    ghost function Front(n: nat): List<Subscriber>
      reads this, Repr()
      requires n <= |mSubscriberList|
    {
      ListOf(Values(mSubscriberList[..n]))
    }

    ghost function Repr(): (r: set<object>)
      reads this
      ensures this in r && forall s :: s in mSubscriberList ==> s in r
    {
      {this as object} + set s: AgpsSubscriber | s in mSubscriberList :: s as object
    }

    constructor ()
      ensures Abs() == INITIAL && fresh(Repr())
    {
      mState, mSubscriberList, trace := StateReleased, [], Nil;
    }

    method AnyActiveSubscribers() returns (any: bool)
      ensures any == AnyActive(Subs())
    {
      ghost var subs := Values(mSubscriberList);
      for i := 0 to |mSubscriberList|
        invariant !AnyActive(ListOf(subs[..i]))
      {
        NextPlace(subs, i);
        if !mSubscriberList[i].mIsInactive {
          ActivePrefix(subs, i + 1);
          return true;
        }
      }
      assert subs[..|subs|] == subs;
      return false;
    }

    method GetSubscriber(connHandle: int) returns (found: AgpsSubscriber?)
      requires Distinct(Subs())
      ensures found == null <==> !Listed(Subs(), connHandle)
      ensures found != null ==> found in mSubscriberList && found.Value() == Lookup(Subs(), connHandle)
    {
      ghost var subs := Values(mSubscriberList);
      for i := 0 to |mSubscriberList|
        invariant !Listed(ListOf(subs[..i]), connHandle)
      {
        NextPlace(subs, i);
        if mSubscriberList[i].mConnHandle == connHandle {
          ListedPrefix(subs, i);
          return mSubscriberList[i];
        }
      }
      assert subs[..|subs|] == subs;
      return null;
    }

    method AddSubscriber(s: AgpsSubscriber)
      modifies this`mSubscriberList
      ensures Subs() == Add(old(Subs()), s.Value())
      ensures fresh(Repr() - old(Repr()))
    {
      ghost var subs := Values(mSubscriberList);
      for i := 0 to |mSubscriberList|
        invariant !Listed(ListOf(subs[..i]), s.mConnHandle)
        invariant mSubscriberList == old(mSubscriberList)
      {
        NextPlace(subs, i);
        if mSubscriberList[i].Equals(s) {
          ListedPrefix(subs, i);
          return;
        }
      }
      assert subs[..|subs|] == subs;
      var cloned := s.Clone();
      mSubscriberList := mSubscriberList + [cloned];
      assert Values(mSubscriberList) == subs + [s.Value()];
      assert (subs + [s.Value()])[..|subs|] == subs;
    }

    /** One place of DeleteSubscriber's walk; the result is the next place. */
    method EraseOrPass(it: nat, s: AgpsSubscriber) returns (next: nat)
      requires it < |mSubscriberList|
      modifies this`mSubscriberList
      ensures next <= |mSubscriberList| && mSubscriberList[next..] == old(mSubscriberList[it..])[1..]
      ensures Front(next) == if old(mSubscriberList)[it].mConnHandle == s.mConnHandle
        then old(Front(it)) else Snoc(old(Front(it)), old(mSubscriberList[it].Value()))
      ensures Repr() <= old(Repr())
    {
      Walk(mSubscriberList, it);
      if mSubscriberList[it].Equals(s) {
        mSubscriberList := mSubscriberList[..it] + mSubscriberList[it+1..];
        assert forall x :: x in mSubscriberList ==> x in old(mSubscriberList);
        return it;
      }
      return it + 1;
    }

    /** Erases every entry with the handle of s from the list. */
    method DeleteSubscriber(s: AgpsSubscriber)
      modifies this`mSubscriberList
      ensures Repr() <= old(Repr())
      ensures Subs() == Without(old(Subs()), Handle(s.mConnHandle))
    {
      ghost var subs, was := Values(mSubscriberList), mSubscriberList;
      ghost var done := 0;
      var it: nat := 0;
      while it < |mSubscriberList|
        invariant done <= |was| && it <= |mSubscriberList|
        invariant mSubscriberList[it..] == was[done..]
        invariant Front(it) == Without(ListOf(subs[..done]), Handle(s.mConnHandle))
        invariant Repr() <= old(Repr())
        decreases |was| - done
      {
        NextPlace(subs, done);
        assert mSubscriberList[it] == mSubscriberList[it..][0] == was[done..][0] == was[done];
        it := EraseOrPass(it, s);
        done := done + 1;
      }
      assert mSubscriberList[..it] == mSubscriberList && subs[..done] == subs;
    }

    method NotifyEventToSubscriber(note: Note, s: AgpsSubscriber, deleteSubscriberPostNotify: bool)
      modifies this`trace, this`mSubscriberList
      ensures Repr() <= old(Repr())
      ensures trace == Snoc(old(trace), Callback(note, s.mConnHandle))
      ensures deleteSubscriberPostNotify ==> Subs() == Without(old(Subs()), Handle(s.mConnHandle))
      ensures !deleteSubscriberPostNotify ==> mSubscriberList == old(mSubscriberList)
    {
      trace := Snoc(trace, Callback(note, s.mConnHandle));
      if deleteSubscriberPostNotify {
        DeleteSubscriber(s);
      }
    }

    /** Handles one place of the list; the result is the next place. */
    method NotifyAt(it: nat, note: Note, deleteSubscriberPostNotify: bool, who: Selection) returns (next: nat)
      requires it < |mSubscriberList|
      modifies this`trace, this`mSubscriberList
      ensures trace == if Selects(who, old(mSubscriberList[it].Value()))
        then Snoc(old(trace), Callback(note, old(mSubscriberList)[it].mConnHandle)) else old(trace)
      ensures next <= |mSubscriberList| && mSubscriberList[next..] == old(mSubscriberList[it..])[1..]
      ensures Front(next) == if Selects(who, old(mSubscriberList[it].Value())) && deleteSubscriberPostNotify
        then old(Front(it)) else Snoc(old(Front(it)), old(mSubscriberList[it].Value()))
      ensures Repr() <= old(Repr())
    {
      var subscriber := mSubscriberList[it];
      Walk(mSubscriberList, it);
      if who == All || (who == Inactive && subscriber.mIsInactive) || (who == Active && !subscriber.mIsInactive)
         || who == Handle(subscriber.mConnHandle) {
        NotifyEventToSubscriber(note, subscriber, false);
        if deleteSubscriberPostNotify {
          mSubscriberList := mSubscriberList[..it] + mSubscriberList[it+1..];
          assert forall x :: x in mSubscriberList ==> x in old(mSubscriberList);
          return it;
        }
      }
      return it + 1;
    }

    /** Walks the list once, calling back and, if asked to, erasing each selected entry. */
    method NotifyAllSubscribers(note: Note, deleteSubscriberPostNotify: bool, who: Selection)
      modifies this`trace, this`mSubscriberList
      ensures Repr() <= old(Repr())
      ensures Abs() == NotifyAll(old(Abs()), note, deleteSubscriberPostNotify, who)
    {
      ghost var subs, was := Values(mSubscriberList), mSubscriberList;
      ghost var done := 0;
      var it: nat := 0;
      while it < |mSubscriberList|
        invariant done <= |was| && it <= |mSubscriberList|
        invariant mSubscriberList[it..] == was[done..]
        invariant Front(it) == Walked(ListOf(subs[..done]), deleteSubscriberPostNotify, who)
        invariant trace == Callbacks(old(trace), ListOf(subs[..done]), who, note)
        invariant Repr() <= old(Repr())
        decreases |was| - done
      {
        NextPlace(subs, done);
        assert mSubscriberList[it] == mSubscriberList[it..][0] == was[done..][0] == was[done];
        it := NotifyAt(it, note, deleteSubscriberPostNotify, who);
        done := done + 1;
      }
      assert mSubscriberList[..it] == mSubscriberList && subs[..done] == subs;
    }

    method RequestOrReleaseDataConn(request: bool)
      modifies this`trace
      ensures trace == Snoc(old(trace), if request then ConnRequest else ConnRelease)
    {
      trace := Snoc(trace, if request then ConnRequest else ConnRelease);
    }

    method ProcessAgpsEventSubscribe(current: AgpsSubscriber)
      modifies this
      ensures fresh(Repr() - old(Repr()))
      ensures Abs() == Subscribe(old(Abs()), current.Value())
    {
      match mState
      case StateReleased =>
        AddSubscriber(current);
        RequestOrReleaseDataConn(true);
        mState := StatePending;
      case StatePending =>
        AddSubscriber(current);
      case StateAcquired =>
        NotifyEventToSubscriber(NoteGranted, current, false);
        AddSubscriber(current);
      case StateReleasing =>
        AddSubscriber(current);
    }

    /** Marks the current subscriber inactive through its pointer into the list, or
        notifies and deletes it. */
    method LeaveOrWait(current: AgpsSubscriber)
      requires current in mSubscriberList && Distinct(Subs())
      modifies this`trace, this`mSubscriberList, current
      ensures Repr() <= old(Repr())
      ensures Abs() == Leave(old(Abs()), old(current.Value()))
    {
      if current.mWaitForCloseComplete {
        ghost var i :| 0 <= i < |mSubscriberList| && mSubscriberList[i] == current;
        DeactivateAt(Values(mSubscriberList), i);
        HandlesDiffer(Values(mSubscriberList));
        current.mIsInactive := true;
        assert Values(mSubscriberList) == old(Values(mSubscriberList))[i := current.Value()];
      } else {
        NotifyEventToSubscriber(NoteClosed, current, true);
      }
    }

    method ReleaseUnusedDataConn()
      modifies this
      ensures mSubscriberList == old(mSubscriberList)
      ensures Abs() == ReleaseIfUnused(old(Abs()))
    {
      if mSubscriberList == [] {
        mState := StateReleased;
        RequestOrReleaseDataConn(false);
      } else {
        var any := AnyActiveSubscribers();
        if !any {
          mState := StateReleasing;
          RequestOrReleaseDataConn(false);
        }
      }
    }

    method ProcessAgpsEventUnsubscribe(current: AgpsSubscriber)
      requires current in mSubscriberList && Distinct(Subs())
      modifies this, current
      ensures Repr() <= old(Repr())
      ensures Abs() == Unsubscribe(old(Abs()), old(current.Value()))
    {
      match mState
      case StateReleased =>
        NotifyEventToSubscriber(NoteClosed, current, false);
      case StatePending | StateAcquired =>
        LeaveOrWait(current);
        ReleaseUnusedDataConn();
      case StateReleasing =>
        LeaveOrWait(current);
        if mSubscriberList == [] {
          mState := StateReleased;
        }
    }

    method ProcessAgpsEventGranted()
      modifies this
      ensures Repr() <= old(Repr())
      ensures Abs() == HandleGranted(old(Abs()))
    {
      if mState == StatePending {
        mState := StateAcquired;
        NotifyAllSubscribers(NoteGranted, false, Active);
      }
    }

    method CloseInactiveSubscribers()
      modifies this
      ensures Repr() <= old(Repr())
      ensures Abs() == FinishReleasing(old(Abs()))
    {
      NotifyAllSubscribers(NoteClosed, true, Inactive);
      var any := AnyActiveSubscribers();
      if any {
        mState := StatePending;
        RequestOrReleaseDataConn(true);
      } else {
        mState := StateReleased;
      }
    }

    method ProcessAgpsEventReleased()
      modifies this
      ensures Repr() <= old(Repr())
      ensures Abs() == HandleReleased(old(Abs()))
    {
      match mState
      case StateReleased =>
      case StateAcquired =>
        mState := StateReleased;
        NotifyAllSubscribers(NoteClosed, true, All);
      case StateReleasing =>
        CloseInactiveSubscribers();
      case StatePending =>
    }

    method ProcessAgpsEventDenied()
      modifies this
      ensures Repr() <= old(Repr())
      ensures Abs() == HandleDenied(old(Abs()))
    {
      match mState
      case StateReleased =>
      case StateAcquired =>
      case StateReleasing =>
        CloseInactiveSubscribers();
      case StatePending =>
        mState := StateReleased;
        NotifyAllSubscribers(NoteDenied, true, All);
    }

    method DropAllSubscribers()
      modifies this
      ensures Repr() <= old(Repr())
      ensures Abs() == DropAll(old(Abs()))
    {
      while mSubscriberList != []
        invariant mState == old(mState) && trace == old(trace)
        invariant Repr() <= old(Repr())
        decreases |mSubscriberList|
      {
        assert forall s :: s in mSubscriberList[1..] ==> s in mSubscriberList;
        mSubscriberList := mSubscriberList[1..];
      }
      mState := StateReleased;
      RequestOrReleaseDataConn(false);
    }

    /** What the manager does with this machine for one event: the current subscriber
        of a request is a fresh one that waits for the close, that of a release is
        looked up in the list. */
    method Take(e: Event)
      requires Inv(Abs())
      modifies Repr()
      ensures Abs() == Step(old(Abs()), e) && Inv(Abs())
      ensures fresh(Repr() - old(Repr()))
    {
      StepKeepsInv(Abs(), e);
      trace := Snoc(trace, In(e));
      match e
      case Request(connHandle, waits) =>
        var subscriber := new AgpsSubscriber(connHandle, waits, false);
        ProcessAgpsEventSubscribe(subscriber);
      case Release(connHandle) =>
        var subscriber := GetSubscriber(connHandle);
        if subscriber != null {
          ProcessAgpsEventUnsubscribe(subscriber);
        }
      case Granted => ProcessAgpsEventGranted();
      case Released => ProcessAgpsEventReleased();
      case Denied => ProcessAgpsEventDenied();
      case ModemRestart => DropAllSubscribers();
    }
  }

  ghost function StateOf(sm: AgpsStateMachine?): Machine
    reads if sm == null then {} else sm.Repr()
  {
    if sm == null then INITIAL else sm.Abs()
  }

  /** A machine, if present, has taken one step from was, or has not moved. */
  ghost predicate Moved(sm: AgpsStateMachine?, was: Machine, e: Event, chosen: bool)
    reads if sm == null then {} else sm.Repr()
  {
    sm != null ==> sm.Abs() == if chosen then Step(was, e) else was
  }

  datatype AGpsExtType = AgpsInvalid | AgpsAny | AgpsSupl | AgpsC2k | AgpsWwanAny | AgpsWifi | AgpsSuplEs

  /** The manager owns up to two machines and routes each request to one of them. */
  class AgpsManager {
    const useEmergencyPdnForEmergencySupl: bool
    var mAgnssNif: AgpsStateMachine?
    var mInternetNif: AgpsStateMachine?
    // Refusals the manager made itself, for want of a machine.
    ghost var refused: List<Obs>

    /** Every machine is in a reachable state, and no object is shared. */
    ghost predicate Valid()
      reads this, Footprint()
    {
      && (mAgnssNif != null ==> Inv(mAgnssNif.Abs()))
      && (mInternetNif != null ==> Inv(mInternetNif.Abs()))
      && (mAgnssNif != null && mInternetNif != null ==> mAgnssNif.Repr() !! mInternetNif.Repr())
      && this !in Footprint()
    }

    ghost function Footprint(): set<object>
      reads this, mAgnssNif, mInternetNif
    {
      (if mAgnssNif == null then {} else mAgnssNif.Repr()) + (if mInternetNif == null then {} else mInternetNif.Repr())
    }

    constructor (agnss: bool, internet: bool, useEmergencyPdn: bool)
      ensures Valid() && refused == Nil
      ensures (mAgnssNif != null <==> agnss) && (mInternetNif != null <==> internet)
      ensures mAgnssNif != null ==> mAgnssNif.Abs() == INITIAL
      ensures mInternetNif != null ==> mInternetNif.Abs() == INITIAL
    {
      useEmergencyPdnForEmergencySupl, refused := useEmergencyPdn, Nil;
      mAgnssNif, mInternetNif := null, null;
      new;
      InitialInv();
      if agnss {
        mAgnssNif := new AgpsStateMachine();
      }
      if internet {
        mInternetNif := new AgpsStateMachine();
      }
    }

    function GetAgpsStateMachine(agpsType: AGpsExtType): AgpsStateMachine?
      reads this
    {
      match agpsType
      case AgpsInvalid | AgpsSupl | AgpsSuplEs => mAgnssNif
      case _ => mInternetNif
    }

    method Deliver(sm: AgpsStateMachine, e: Event)
      requires Valid() && (sm == mAgnssNif || sm == mInternetNif)
      modifies sm.Repr()
      ensures Valid() && fresh(Footprint() - old(Footprint()))
      ensures Moved(mAgnssNif, old(StateOf(mAgnssNif)), e, sm == mAgnssNif)
      ensures Moved(mInternetNif, old(StateOf(mInternetNif)), e, sm == mInternetNif)
    {
      sm.Take(e);
    }

    method RequestATL(connHandle: int, agpsType: AGpsExtType)
      requires Valid()
      modifies this`refused, Footprint()
      ensures Valid() && fresh(Footprint() - old(Footprint()))
      ensures var agnss := agpsType == AgpsInvalid || agpsType == AgpsSupl || agpsType == AgpsSuplEs;
        && refused == (if (if agnss then mAgnssNif else mInternetNif) == null
                       then Snoc(old(refused), AtlOpen(connHandle, false)) else old(refused))
        && Moved(mAgnssNif, old(StateOf(mAgnssNif)), Request(connHandle, true), agnss)
        && Moved(mInternetNif, old(StateOf(mInternetNif)), Request(connHandle, true), !agnss)
    {
      var sm := GetAgpsStateMachine(EffectiveType(agpsType));
      if sm == null {
        refused := Snoc(refused, AtlOpen(connHandle, false));
      } else {
        Deliver(sm, Request(connHandle, true));
      }
    }

    /** Without a separate emergency connection, emergency SUPL is plain SUPL. */
    function EffectiveType(agpsType: AGpsExtType): AGpsExtType {
      if !useEmergencyPdnForEmergencySupl && agpsType == AgpsSuplEs then AgpsSupl else agpsType
    }

    /** The machine that lists the handle takes the release, the AGNSS machine first. */
    method ReleaseATL(connHandle: int)
      requires Valid()
      modifies Footprint()
      ensures Valid() && fresh(Footprint() - old(Footprint()))
      ensures var agnss := Listed(old(StateOf(mAgnssNif)).subs, connHandle);
        && Moved(mAgnssNif, old(StateOf(mAgnssNif)), Release(connHandle), agnss)
        && Moved(mInternetNif, old(StateOf(mInternetNif)), Release(connHandle),
                 !agnss && Listed(old(StateOf(mInternetNif)).subs, connHandle))
    {
      var subscriber: AgpsSubscriber? := null;
      if mAgnssNif != null {
        subscriber := mAgnssNif.GetSubscriber(connHandle);
      }
      if subscriber != null {
        Deliver(mAgnssNif, Release(connHandle));
      } else if mInternetNif != null {
        subscriber := mInternetNif.GetSubscriber(connHandle);
        if subscriber != null {
          Deliver(mInternetNif, Release(connHandle));
        }
      }
    }

    /** reportAtlOpenSuccess, reportAtlOpenFailed and reportAtlClosed. */
    method ReportAtl(agpsType: AGpsExtType, answer: Event)
      requires Valid() && (answer == Granted || answer == Denied || answer == Released)
      modifies Footprint()
      ensures Valid() && fresh(Footprint() - old(Footprint()))
      ensures var agnss := agpsType == AgpsInvalid || agpsType == AgpsSupl || agpsType == AgpsSuplEs;
        && Moved(mAgnssNif, old(StateOf(mAgnssNif)), answer, agnss)
        && Moved(mInternetNif, old(StateOf(mInternetNif)), answer, !agnss)
    {
      var sm := GetAgpsStateMachine(agpsType);
      if sm != null {
        Deliver(sm, answer);
      }
    }

    method HandleModemSSR()
      requires Valid()
      modifies Footprint()
      ensures Valid() && fresh(Footprint() - old(Footprint()))
      ensures Moved(mAgnssNif, old(StateOf(mAgnssNif)), ModemRestart, true)
      ensures Moved(mInternetNif, old(StateOf(mInternetNif)), ModemRestart, true)
    {
      if mAgnssNif != null {
        Deliver(mAgnssNif, ModemRestart);
      }
      if mInternetNif != null {
        Deliver(mInternetNif, ModemRestart);
      }
    }
  }

  /** What a walk that calls back the selected subscribers leaves of a list. */
  ghost function Walked(subs: List<Subscriber>, delete: bool, who: Selection): List<Subscriber> {
    if delete then Without(subs, who) else subs
  }

  /** Both ways of walking past place i: keeping its entry and erasing it. */
  lemma Walk(list: seq<AgpsSubscriber>, i: nat)
    requires i < |list|
    ensures ListOf(Values(list[..i+1])) == Snoc(ListOf(Values(list[..i])), list[i].Value())
    ensures list[i+1..] == list[i..][1..]
    ensures (list[..i] + list[i+1..])[..i] == list[..i]
    ensures (list[..i] + list[i+1..])[i..] == list[i..][1..]
  {
    assert Values(list[..i+1]) == Values(list)[..i+1] && Values(list[..i]) == Values(list)[..i];
    NextPlace(Values(list), i);
  }

  lemma {:induction false} ActivePrefix(subs: seq<Subscriber>, i: nat)
    requires i <= |subs| && AnyActive(ListOf(subs[..i]))
    ensures AnyActive(ListOf(subs))
    decreases |subs| - i
  {
    if i == |subs| {
      assert subs[..i] == subs;
    } else {
      NextPlace(subs, i);
      ActivePrefix(subs, i + 1);
    }
  }

  lemma {:induction false} ListedPrefix(subs: seq<Subscriber>, i: nat)
    requires i < |subs|
    ensures Listed(ListOf(subs), subs[i].handle)
    ensures Distinct(ListOf(subs)) ==> Lookup(ListOf(subs), subs[i].handle) == subs[i]
  {
    if i < |subs| - 1 {
      ListedPrefix(subs[..|subs|-1], i);
    }
  }

  /** Marking one entry through its object is Deactivate of its handle. */
  lemma {:induction false} DeactivateAt(subs: seq<Subscriber>, i: nat)
    requires Distinct(ListOf(subs)) && i < |subs|
    ensures Deactivate(ListOf(subs), subs[i].handle) == ListOf(subs[i := subs[i].(inactive := true)])
  {
    var n := |subs| - 1;
    var after := subs[i := subs[i].(inactive := true)];
    if i == n {
      assert after[..n] == subs[..n];
      DeactivateAbsent(subs[..n], subs[i].handle);
    } else {
      assert after[..n] == subs[..n][i := subs[i].(inactive := true)];
      ListedPrefix(subs[..n], i);
      DeactivateAt(subs[..n], i);
    }
  }

  lemma {:induction false} HandlesDiffer(subs: seq<Subscriber>)
    requires Distinct(ListOf(subs))
    ensures forall i, j :: 0 <= i < j < |subs| ==> subs[i].handle != subs[j].handle
  {
    if subs != [] {
      var front := subs[..|subs|-1];
      HandlesDiffer(front);
      forall i | 0 <= i < |subs| - 1 ensures subs[i].handle != subs[|subs|-1].handle {
        ListedPrefix(front, i);
      }
    }
  }

  lemma {:induction false} DeactivateAbsent(subs: seq<Subscriber>, h: int)
    requires !Listed(ListOf(subs), h)
    ensures Deactivate(ListOf(subs), h) == ListOf(subs)
  {
    if subs != [] {
      DeactivateAbsent(subs[..|subs|-1], h);
    }
  }
}
