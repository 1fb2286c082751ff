/** The order of the AGPS subscriber list: subscribers are listed, and called back in a
    round, in the order of the requests that opened their episodes. */
module AgpsOrder {
  import opened AgpsRuns
  import opened AgpsHandles

  function Minus(hs: seq<int>, gone: set<int>): seq<int> {
    if hs == [] then []
    else
      var n := |hs| - 1;
      Minus(hs[..n], gone) + if hs[n] in gone then [] else [hs[n]]
  }

  /** The handles with an open episode, in the order in which these were opened, as the
      requests and the closing callbacks tell. */
  function Opened(trace: List<Obs>): seq<int> {
    match trace
    case Nil => []
    case Snoc(before, In(ModemRestart)) => []
    case Snoc(before, In(Request(h, _))) => Opened(before) + if EpisodeOf(before, h) == Absent then [h] else []
    case Snoc(before, AtlClose(h)) => Minus(Opened(before), {h})
    case Snoc(before, AtlOpen(h, false)) => Minus(Opened(before), {h})
    case Snoc(before, _) => Opened(before)
  }

  /** The handles of a list, in its order. */
  function HandlesOf(subs: List<Subscriber>): seq<int> {
    match subs
    case Nil => []
    case Snoc(front, last) => HandlesOf(front) + [last.handle]
  }

  function Selected(subs: List<Subscriber>, who: Selection): seq<int> {
    match subs
    case Nil => []
    case Snoc(front, last) => Selected(front, who) + if Selects(who, last) then [last.handle] else []
  }

  function SetOf(hs: seq<int>): set<int> {
    set h | h in hs
  }

  // ---------- Lists without some handles ----------

  lemma MinusSnoc(hs: seq<int>, h: int, gone: set<int>)
    ensures Minus(hs + [h], gone) == Minus(hs, gone) + if h in gone then [] else [h]
  {
    assert (hs + [h])[..|hs|] == hs;
  }

  lemma {:induction false} MinusTwice(hs: seq<int>, gone: set<int>, more: set<int>)
    ensures Minus(Minus(hs, gone), more) == Minus(hs, gone + more)
  {
    if hs != [] {
      var n := |hs| - 1;
      MinusTwice(hs[..n], gone, more);
      if hs[n] !in gone {
        MinusSnoc(Minus(hs[..n], gone), hs[n], more);
      } else {
        assert Minus(hs, gone) == Minus(hs[..n], gone) + [] == Minus(hs[..n], gone);
      }
    }
  }

  lemma {:induction false} MinusNone(hs: seq<int>, gone: set<int>)
    requires forall k :: 0 <= k < |hs| ==> hs[k] !in gone
    ensures Minus(hs, gone) == hs
  {
    if hs != [] {
      var front, last := hs[..|hs|-1], hs[|hs|-1];
      MinusNone(front, gone);
      MinusSnoc(front, last, gone);
      assert hs == front + [last];
    }
  }

  lemma {:induction false} HandlesAreListed(subs: List<Subscriber>, h: int)
    ensures h in HandlesOf(subs) <==> Listed(subs, h)
  {
    if subs.Snoc? {
      HandlesAreListed(subs.front, h);
    }
  }

  lemma {:induction false} SelectedAreListed(subs: List<Subscriber>, who: Selection, h: int)
    requires h in Selected(subs, who)
    ensures Listed(subs, h)
  {
    if subs.last.handle != h {
      SelectedAreListed(subs.front, who, h);
    }
  }

  lemma StaysOut(subs: List<Subscriber>, who: Selection, g: int)
    requires Distinct(subs) && !Listed(subs, g)
    ensures Minus(HandlesOf(Without(subs, who)), {g}) == HandlesOf(Without(subs, who))
  {
    var left := HandlesOf(Without(subs, who));
    forall k | 0 <= k < |left| ensures left[k] != g {
      HandlesAreListed(Without(subs, who), left[k]);
      WithoutStatus(subs, who, left[k]);
    }
    MinusNone(left, {g});
  }

  lemma {:induction false} WithoutHandles(subs: List<Subscriber>, who: Selection)
    requires Distinct(subs)
    ensures HandlesOf(Without(subs, who)) == Minus(HandlesOf(subs), SetOf(Selected(subs, who)))
  {
    if subs.Snoc? {
      var front, h := subs.front, subs.last.handle;
      var hs := Selected(front, who);
      WithoutHandles(front, who);
      SetGrows(hs, h);
      MinusSnoc(HandlesOf(front), h, SetOf(Selected(subs, who)));
      if Selects(who, subs.last) {
        MinusTwice(HandlesOf(front), SetOf(hs), {h});
        StaysOut(front, who, h);
      } else if h in hs {
        SelectedAreListed(front, who, h);
      }
    }
  }

  // ---------- A round of callbacks ----------

  /** The callbacks of a trace since another one, in order. */
  function Calls(hs: seq<int>, note: Note): seq<Obs> {
    if hs == [] then [] else Calls(hs[..|hs|-1], note) + [Callback(note, hs[|hs|-1])]
  }

  function Extended(t: List<Obs>, os: seq<Obs>): List<Obs> {
    if os == [] then t else Snoc(Extended(t, os[..|os|-1]), os[|os|-1])
  }

  lemma CallsSnoc(hs: seq<int>, h: int, note: Note)
    ensures Calls(hs + [h], note) == Calls(hs, note) + [Callback(note, h)]
  {
    assert (hs + [h])[..|hs|] == hs;
  }

  lemma ExtendedSnoc(t: List<Obs>, os: seq<Obs>, o: Obs)
    ensures Extended(t, os + [o]) == Snoc(Extended(t, os), o)
  {
    assert (os + [o])[..|os|] == os;
  }

  /** A round calls back the selected subscribers in the order of the list. */
  lemma {:induction false} RoundInOrder(t: List<Obs>, subs: List<Subscriber>, who: Selection, note: Note)
    ensures Callbacks(t, subs, who, note) == Extended(t, Calls(Selected(subs, who), note))
  {
    if subs.Snoc? {
      var hs := Selected(subs.front, who);
      RoundInOrder(t, subs.front, who, note);
      if Selects(who, subs.last) {
        CallsSnoc(hs, subs.last.handle, note);
        ExtendedSnoc(t, Calls(hs, note), Callback(note, subs.last.handle));
      } else {
        assert hs + [] == hs;
      }
    }
  }

  lemma OneCloses(t: List<Obs>, h: int, note: Note)
    requires note != NoteGranted
    ensures Opened(Snoc(t, Callback(note, h))) == Minus(Opened(t), {h})
  {
  }

  lemma SetGrows(hs: seq<int>, h: int)
    ensures SetOf(hs + [h]) == SetOf(hs) + {h} && SetOf(hs + []) == SetOf(hs) && SetOf([]) == {}
  {
    assert hs + [] == hs;
  }

  lemma {:induction false} RoundCloses(t: List<Obs>, subs: List<Subscriber>, who: Selection, note: Note)
    requires note != NoteGranted
    ensures Opened(Callbacks(t, subs, who, note)) == Minus(Opened(t), SetOf(Selected(subs, who)))
  {
    if subs == Nil {
      SetGrows([], 0);
      MinusNone(Opened(t), {});
    } else {
      var h, hs := subs.last.handle, Selected(subs.front, who);
      RoundCloses(t, subs.front, who, note);
      SetGrows(hs, h);
      if Selects(who, subs.last) {
        OneCloses(Callbacks(t, subs.front, who, note), h, note);
        MinusTwice(Opened(t), SetOf(hs), {h});
      }
    }
  }

  lemma {:induction false} RoundTells(t: List<Obs>, subs: List<Subscriber>, who: Selection)
    ensures Opened(Callbacks(t, subs, who, NoteGranted)) == Opened(t)
  {
    if subs.Snoc? {
      RoundTells(t, subs.front, who);
    }
  }

  // ---------- Every event ----------

  ghost predicate InOrder(m: Machine) {
    HandlesOf(m.subs) == Opened(m.trace)
  }

  lemma {:induction false} DeactivateHandles(subs: List<Subscriber>, g: int)
    ensures HandlesOf(Deactivate(subs, g)) == HandlesOf(subs)
  {
    if subs.Snoc? {
      DeactivateHandles(subs.front, g);
    }
  }

  lemma {:induction false} OneSelected(subs: List<Subscriber>, h: int)
    requires Distinct(subs)
    ensures SetOf(Selected(subs, Handle(h))) == if Listed(subs, h) then {h} else {}
  {
    if subs.Snoc? {
      OneSelected(subs.front, h);
      SetGrows(Selected(subs.front, Handle(h)), h);
    }
  }

  lemma RequestInOrder(m: Machine, e: Event)
    requires e.Request? && InOrder(m) && EpisodeFits(m, e.handle)
    ensures InOrder(Step(m, e))
  {
    assert HandlesOf(m.subs) + [] == HandlesOf(m.subs);
  }

  lemma LeaveInOrder(m: Machine, g: int)
    requires InOrder(m) && Distinct(m.subs) && Listed(m.subs, g)
    ensures InOrder(Leave(m, Lookup(m.subs, g)))
  {
    DeactivateHandles(m.subs, g);
    WithoutHandles(m.subs, Handle(g));
    OneSelected(m.subs, g);
    OneCloses(m.trace, g, NoteClosed);
  }

  lemma ReleaseInOrder(m: Machine, e: Event)
    requires e.Release? && InOrder(m) && Inv(m)
    ensures InOrder(Step(m, e))
  {
    if Listed(m.subs, e.handle) {
      LeaveInOrder(Emit(m, In(e)), e.handle);
    }
  }

  lemma AnswerInOrder(m: Machine, e: Event)
    requires (e == Released || e == Denied) && InOrder(m) && Distinct(m.subs)
    ensures InOrder(Step(m, e))
  {
    var seen := Emit(m, In(e));
    RoundInOrderOf(seen, if m.state == StateReleasing then Inactive else All,
                   if m.state == StatePending then NoteDenied else NoteClosed);
  }

  lemma RoundInOrderOf(m: Machine, who: Selection, note: Note)
    requires InOrder(m) && Distinct(m.subs) && note != NoteGranted
    ensures HandlesOf(Without(m.subs, who)) == Opened(Callbacks(m.trace, m.subs, who, note))
  {
    RoundCloses(m.trace, m.subs, who, note);
    WithoutHandles(m.subs, who);
  }

  /** In every run the list is in the order of the requests. */
  lemma {:induction false} EveryRunIsInOrder(es: seq<Event>)
    ensures InOrder(RunFrom(INITIAL, es))
  {
    if es != [] {
      var m, e := RunFrom(INITIAL, es[..|es|-1]), es[|es|-1];
      EveryRunIsInOrder(es[..|es|-1]);
      RunFits(es[..|es|-1]);
      match e
      case Request(h, _) => assert EpisodeFits(m, h); RequestInOrder(m, e);
      case Release(_) => ReleaseInOrder(m, e);
      case Granted => RoundTells(Snoc(m.trace, In(e)), m.subs, Active);
      case ModemRestart =>
      case _ => AnswerInOrder(m, e);
    }
  }
}
