/** What the observer asks the framework for and tells its clients, message by message:
    the calls are exactly the change of the set of items that have clients, and over every
    run an item is subscribed to, or its data requested, exactly as its first subscription
    asked. */
module SubscriptionCalls {
  import opened LocUnorderedSetMap
  import opened Options
  import opened Sequences
  import opened SubscriptionIndex

  /** Somebody is listed for the item. */
  ghost predicate HasClients<V>(s: State<V>, i: Id) {
    exists c :: Reaches(s, c, i)
  }

  lemma KeysHaveClients<V>(s: State<V>, i: Id)
    requires NoEmptyEntries(s)
    ensures i in s.itemToClients <==> HasClients(s, i)
  {
    if i in s.itemToClients {
      var c :| c in s.itemToClients[i];
      assert Reaches(s, c, i);
    }
  }

  // ---------- The calls of one message ----------

  /** The items that have clients in the one state and not in the other. */
  function Gained<V>(s: State<V>, after: State<V>): set<Id> {
    after.itemToClients.Keys - s.itemToClients.Keys
  }

  /** The calls that a message should make, given what it does to the items. */
  function CallsFor<V>(s: State<V>, m: Message<V>, after: State<V>): seq<FwCall> {
    var all, gained, lost := s.itemToClients.Keys, Gained(s, after), Gained(after, s);
    if m.MsgSetSubscriptionObj? then [SetObject] + if all == {} then [] else [FwSubscribe(all), FwRequestData(all)]
    else if !s.hasSubscription then []
    else if m.MsgSubscribe? && m.toRequestData then if m.items == {} then [] else [FwRequestData(gained)]
    else (if gained == {} then [] else [FwSubscribe(gained)]) + (if lost == {} then [] else [FwUnsubscribe(lost)])
  }

  /** Whether there is a subscription object, and what is called on it. */
  ghost predicate Calls<V>(s: State<V>, m: Message<V>, after: State<V>) {
    && after.hasSubscription == (s.hasSubscription || m.MsgSetSubscriptionObj?)
    && after.framework == s.framework + CallsFor(s, m, after)
    && (m.MsgSubscribe? ==> Gained(after, s) == {})
  }

  lemma SetObjectCalls<V>(copy: (V, V) -> V, s: State<V>)
    ensures Calls(s, MsgSetSubscriptionObj, Handle(copy, s, MsgSetSubscriptionObj))
  {
    var keys, f := s.itemToClients.Keys, s.framework;
    if s.itemToClients == map[] {
      Unit([SetObject]);
    } else {
      var i :| i in s.itemToClients;
      assert i in keys;
      assert f + [SetObject] + [FwSubscribe(keys)] + [FwRequestData(keys)]
          == f + ([SetObject] + [FwSubscribe(keys), FwRequestData(keys)]);
    }
  }

  lemma SubscribeCalls<V>(copy: (V, V) -> V, s: State<V>, m: Message<V>)
    requires m.MsgSubscribe? && m.items != {}
    ensures Calls(s, m, Handle(copy, s, m))
  {
    var newItems, after := NewKeys(s.itemToClients, m.items, {m.client}), Handle(copy, s, m);
    AddKeys(s.itemToClients, m.items, {m.client});
    assert Gained(s, after) == newItems && Gained(after, s) == {};
    Unit(s.framework);
    Unit([FwSubscribe(newItems)]);
  }

  lemma TrimCalls<V>(s: State<V>, after: State<V>, unused: set<Id>, client: Client)
    requires after.itemToClients == Trim(s.itemToClients, unused, {client})
    ensures Gained(s, after) == {} && Gained(after, s) == GoneKeys(s.itemToClients, unused, {client})
  {
    TrimKeys(s.itemToClients, unused, {client});
  }

  lemma UnsubscribeCalls<V>(copy: (V, V) -> V, s: State<V>, m: Message<V>)
    requires m.MsgUnsubscribe? && m.items != {}
    ensures Calls(s, m, Handle(copy, s, m))
  {
    var after, unused := Handle(copy, s, m), GoneVals(s.clientToItems, {m.client}, m.items);
    TrimCalls(s, after, unused, m.client);
    Unit(s.framework);
    Unit([FwUnsubscribe(Gained(after, s))]);
  }

  lemma UnsubscribeAllCalls<V>(copy: (V, V) -> V, s: State<V>, m: Message<V>)
    requires m.MsgUnsubscribeAll?
    ensures Calls(s, m, Handle(copy, s, m))
  {
    var after, items := Handle(copy, s, m), ValSet(s.clientToItems, m.client);
    Unit(s.framework);
    if items != {} {
      TrimCalls(s, after, items, m.client);
      Unit([FwUnsubscribe(Gained(after, s))]);
    }
  }

  lemma UpdateCallsIt<V>(copy: (V, V) -> V, s: State<V>, m: Message<V>)
    requires m.MsgUpdate? && m.items != {}
    ensures Calls(s, m, Handle(copy, s, m))
  {
    var had, after := ValSet(s.clientToItems, m.client), Handle(copy, s, m);
    var kept, added := m.items * had, m.items - had;
    var gone := GoneKeys(s.itemToClients, kept, {m.client});
    var new' := NewKeys(Trim(s.itemToClients, kept, {m.client}), added, {m.client});
    UpdateKeys(s.itemToClients, kept, added, m.client);
    TrimKeys(s.itemToClients, kept, {m.client});
    assert Gained(s, after) == new' && Gained(after, s) == gone;
    var c1 := if new' == {} then [] else [FwSubscribe(new')];
    Assoc(s.framework, c1, if gone == {} then [] else [FwUnsubscribe(gone)]);
    Unit(s.framework);
    Unit(s.framework + c1);
    Unit(c1);
  }

  /** Whatever the state and the message, the calls on the framework are exactly the change
      of the set of items that have clients; a new object is asked for all of them. */
  lemma CallsAreExact<V>(copy: (V, V) -> V, s: State<V>, m: Message<V>)
    ensures Calls(s, m, Handle(copy, s, m))
  {
    Unit(s.framework);
    match m
    case MsgSetSubscriptionObj => SetObjectCalls(copy, s);
    case MsgSubscribe(items, _, _) => if items != {} { SubscribeCalls(copy, s, m); }
    case MsgUpdate(items, _) => if items != {} { UpdateCallsIt(copy, s, m); }
    case MsgUnsubscribe(items, _) => if items != {} { UnsubscribeCalls(copy, s, m); }
    case MsgUnsubscribeAll(_) => UnsubscribeAllCalls(copy, s, m);
    case MsgNotify(_) =>
  }

  // ---------- The calls of a run ----------

  /** The items subscribed to since the object was set, and those whose data was requested,
      but for those unsubscribed since. */
  function SubscribedTo(calls: seq<FwCall>): set<Id> {
    if calls == [] then {}
    else
      var before := SubscribedTo(calls[..|calls|-1]);
      match calls[|calls|-1]
      case SetObject => {}
      case FwSubscribe(items) => before + items
      case FwRequestData(_) => before
      case FwUnsubscribe(items) => before - items
  }

  function Requested(calls: seq<FwCall>): set<Id> {
    if calls == [] then {}
    else
      var before := Requested(calls[..|calls|-1]);
      match calls[|calls|-1]
      case SetObject => {}
      case FwSubscribe(_) => before
      case FwRequestData(items) => before + items
      case FwUnsubscribe(items) => before - items
  }

  predicate ObjectSet<V>(ms: seq<Message<V>>) {
    ms != [] && (ms[|ms|-1].MsgSetSubscriptionObj? || ObjectSet(ms[..|ms|-1]))
  }

  datatype Asked = NotAsked | AskedToSubscribe | AskedForData | AskedForBoth

  /** What the framework should have been asked about an item: both for the items that have
      clients when the object is set; afterwards, when an item gets its first client, data
      if that is a subscription that requests it, and to subscribe otherwise; until the
      item has no client any more. */
  ghost function AskedFor<V>(copy: (V, V) -> V, ms: seq<Message<V>>, i: Id): Asked {
    if ms == [] then NotAsked
    else
      var front, m := ms[..|ms|-1], ms[|ms|-1];
      if m.MsgSetSubscriptionObj? then if HasClients(Run(copy, front), i) then AskedForBoth else NotAsked
      else if !HasClients(Run(copy, ms), i) || !ObjectSet(front) then NotAsked
      else if HasClients(Run(copy, front), i) then AskedFor(copy, front, i)
      else if m.MsgSubscribe? && m.toRequestData then AskedForData
      else AskedToSubscribe
  }

  lemma OneCall(calls: seq<FwCall>, c: FwCall, i: Id)
    ensures i in SubscribedTo(calls + [c]) <==>
      match c
      case SetObject => false
      case FwSubscribe(items) => i in SubscribedTo(calls) || i in items
      case FwRequestData(_) => i in SubscribedTo(calls)
      case FwUnsubscribe(items) => i in SubscribedTo(calls) && i !in items
    ensures i in Requested(calls + [c]) <==>
      match c
      case SetObject => false
      case FwSubscribe(_) => i in Requested(calls)
      case FwRequestData(items) => i in Requested(calls) || i in items
      case FwUnsubscribe(items) => i in Requested(calls) && i !in items
  {
    Snoc(calls, c);
  }

  lemma TwoCalls(calls: seq<FwCall>, c: FwCall, d: FwCall)
    ensures calls + [c, d] == calls + [c] + [d]
  {
  }

  lemma SetAsks<V>(s: State<V>, after: State<V>, i: Id)
    requires Calls(s, MsgSetSubscriptionObj, after)
    ensures i in SubscribedTo(after.framework) <==> i in s.itemToClients
    ensures i in Requested(after.framework) <==> i in s.itemToClients
  {
    var f, all := s.framework, s.itemToClients.Keys;
    OneCall(f, SetObject, i);
    if all != {} {
      OneCall(f + [SetObject], FwSubscribe(all), i);
      OneCall(f + [SetObject] + [FwSubscribe(all)], FwRequestData(all), i);
      Assoc(f, [SetObject], [FwSubscribe(all), FwRequestData(all)]);
      TwoCalls(f + [SetObject], FwSubscribe(all), FwRequestData(all));
    } else {
      Unit([SetObject]);
    }
  }

  predicate RequestsData<V>(m: Message<V>) {
    m.MsgSubscribe? && m.toRequestData
  }

  lemma OtherAsks<V>(s: State<V>, m: Message<V>, after: State<V>, i: Id)
    requires Calls(s, m, after) && !m.MsgSetSubscriptionObj? && s.hasSubscription
    requires m.MsgSubscribe? && m.items == {} ==> after.itemToClients == s.itemToClients
    ensures i in SubscribedTo(after.framework) <==>
      (i in SubscribedTo(s.framework) || (i in Gained(s, after) && !RequestsData(m))) && i !in Gained(after, s)
    ensures i in Requested(after.framework) <==>
      (i in Requested(s.framework) || (i in Gained(s, after) && RequestsData(m))) && i !in Gained(after, s)
  {
    var f, gained, lost := s.framework, Gained(s, after), Gained(after, s);
    Unit(f);
    if RequestsData(m) {
      OneCall(f, FwRequestData(gained), i);
    } else {
      var c1 := if gained == {} then [] else [FwSubscribe(gained)];
      OneCall(f, FwSubscribe(gained), i);
      OneCall(f + c1, FwUnsubscribe(lost), i);
      Assoc(f, c1, if lost == {} then [] else [FwUnsubscribe(lost)]);
      Unit(f + c1);
    }
  }

  lemma {:induction false} ObjectIsSet<V>(copy: (V, V) -> V, ms: seq<Message<V>>, i: Id)
    ensures Run(copy, ms).hasSubscription <==> ObjectSet(ms)
    ensures !ObjectSet(ms) ==> Run(copy, ms).framework == [] && AskedFor(copy, ms, i) == NotAsked
  {
    if ms != [] {
      ObjectIsSet(copy, ms[..|ms|-1], i);
      CallsAreExact(copy, Run(copy, ms[..|ms|-1]), ms[|ms|-1]);
    }
  }

  /** What the framework has been asked for about an item, after any run, since it last had
      no client. */
  ghost predicate IsAsked<V>(s: State<V>, asked: Asked, i: Id) {
    && (i in SubscribedTo(s.framework) <==> asked == AskedToSubscribe || asked == AskedForBoth)
    && (i in Requested(s.framework) <==> asked == AskedForData || asked == AskedForBoth)
  }

  lemma StepAsks<V>(copy: (V, V) -> V, front: seq<Message<V>>, m: Message<V>, i: Id)
    requires IsAsked(Run(copy, front), AskedFor(copy, front, i), i)
    requires !HasClients(Run(copy, front), i) ==> AskedFor(copy, front, i) == NotAsked
    requires ObjectSet(front) && !m.MsgSetSubscriptionObj?
    ensures IsAsked(Run(copy, front + [m]), AskedFor(copy, front + [m], i), i)
  {
    var s := Run(copy, front);
    var after := Handle(copy, s, m);
    Snoc(front, m);
    ObjectIsSet(copy, front, i);
    CallsAreExact(copy, s, m);
    OtherAsks(s, m, after, i);
    EveryRun(copy, front);
    EntriesStayFull(copy, s, m);
    KeysHaveClients(s, i);
    KeysHaveClients(after, i);
  }

  /** In every run: once the object is set, each item with clients was subscribed to, or its
      data requested, or both, exactly as it should have been, and no other item was. */
  lemma {:induction false} EveryRunAsks<V>(copy: (V, V) -> V, ms: seq<Message<V>>, i: Id)
    ensures IsAsked(Run(copy, ms), AskedFor(copy, ms, i), i)
    ensures !HasClients(Run(copy, ms), i) ==> AskedFor(copy, ms, i) == NotAsked
  {
    if ms != [] {
      var front, m := ms[..|ms|-1], ms[|ms|-1];
      assert ms == front + [m];
      EveryRunAsks(copy, front, i);
      ObjectIsSet(copy, ms, i);
      if m.MsgSetSubscriptionObj? {
        var s := Run(copy, front);
        CallsAreExact(copy, s, m);
        SetAsks(s, Handle(copy, s, m), i);
        EveryRun(copy, front);
        KeysHaveClients(s, i);
        SameClients(copy, s, i);
      } else if ObjectSet(front) {
        StepAsks(copy, front, m, i);
      }
    }
  }

  lemma SameClients<V>(copy: (V, V) -> V, s: State<V>, i: Id)
    ensures HasClients(Handle(copy, s, MsgSetSubscriptionObj), i) <==> HasClients(s, i)
  {
    var after := Handle(copy, s, MsgSetSubscriptionObj);
    assert after.itemToClients == s.itemToClients;
    forall c ensures Reaches(after, c, i) <==> Reaches(s, c, i) {
    }
  }

  // ---------- The item side ----------

  /** What a message makes of the item side in any state, inverse or not. An update takes
      the client off the items that it keeps and lists it for those that are new to it; an
      unsubscription takes it off those that the client side has. */
  lemma ItemSideExactly<V>(copy: (V, V) -> V, s: State<V>, m: Message<V>, c: Client, i: Id)
    ensures Reaches(Handle(copy, s, m), c, i) <==>
      match m
      case MsgSubscribe(items, client, _) => Reaches(s, c, i) || (c == client && i in items)
      case MsgUpdate(items, client) =>
        if c == client && i in items then !Wants(s, c, i) else Reaches(s, c, i)
      case MsgUnsubscribe(items, client) => Reaches(s, c, i) && !(c == client && i in items && Wants(s, c, i))
      case MsgUnsubscribeAll(client) => Reaches(s, c, i) && !(c == client && Wants(s, c, i))
      case _ => Reaches(s, c, i)
  {
    match m
    case MsgSubscribe(items, client, _) => AddAllHas(s.itemToClients, items, {client}, i, c);
    case MsgUpdate(items, client) => UpdateItemSide(s, items, client, c, i);
    case MsgUnsubscribe(items, client) =>
      TrimHas(s.itemToClients, GoneVals(s.clientToItems, {client}, items), {client}, i, c);
    case MsgUnsubscribeAll(client) => TrimHas(s.itemToClients, ValSet(s.clientToItems, client), {client}, i, c);
    case _ =>
  }

  lemma UpdateItemSide<V>(s: State<V>, items: set<Id>, client: Client, c: Client, i: Id)
    ensures Reaches(UpdateSubscription(s, items, client), c, i) <==>
              if c == client && i in items then !Wants(s, c, i) else Reaches(s, c, i)
  {
    var had := ValSet(s.clientToItems, client);
    TrimHas(s.itemToClients, items * had, {client}, i, c);
    AddAllHas(Trim(s.itemToClients, items * had, {client}), items - had, {client}, i, c);
  }

  // ---------- What clients are told ----------

  /** The items of a request that are cached, with their values, in one call, if any. */
  function Answer<V>(s: State<V>, items: set<Id>): seq<map<Id, V>> {
    if items * s.cache.Keys == {} then [] else [map i | i in items && i in s.cache :: s.cache[i]]
  }

  /** What a message other than a notification tells a client: the answer to its own
      subscription, or to the items that its update adds, and nothing else. */
  function Told<V>(s: State<V>, m: Message<V>, c: Client): seq<map<Id, V>>
    requires !m.MsgNotify?
  {
    match m
    case MsgSubscribe(items, client, _) => if c == client then Answer(s, items) else []
    case MsgUpdate(items, client) => if c == client then Answer(s, items - ValSet(s.clientToItems, c)) else []
    case _ => []
  }

  lemma SendsAnswer<V>(s: State<V>, items: set<Id>, to: Client, c: Client)
    ensures Inbox(SendCached(s, items, to), c) == Inbox(s, c) + if c == to then Answer(s, items) else []
  {
    Unit(Inbox(s, c));
    var known := Cached(s.cache, items);
    if items * s.cache.Keys == {} {
      assert forall i :: i in items && i in s.cache ==> i in items * s.cache.Keys;
      assert known == map[];
    } else {
      var i :| i in items * s.cache.Keys;
      assert i in known;
    }
  }

  /** Whatever the state, a message tells each client exactly that, and leaves the cached
      values alone. */
  lemma TellsExactly<V>(copy: (V, V) -> V, s: State<V>, m: Message<V>, c: Client)
    requires !m.MsgNotify?
    ensures Inbox(Handle(copy, s, m), c) == Inbox(s, c) + Told(s, m, c)
    ensures Handle(copy, s, m).cache == s.cache
  {
    Unit(Inbox(s, c));
    match m
    case MsgSubscribe(items, client, request) => SubscribeTells(s, items, client, request, c);
    case MsgUpdate(items, client) => UpdateTells(s, items, client, c);
    case _ =>
  }

  lemma SubscribeTells<V>(s: State<V>, items: set<Id>, client: Client, request: bool, c: Client)
    ensures var after := if items == {} then s else Subscribe(s, items, client, request);
      after.cache == s.cache && Inbox(after, c) == Inbox(s, c) + if c == client then Answer(s, items) else []
  {
    Unit(Inbox(s, c));
    SendsAnswer(s, items, client, c);
  }

  lemma UpdateTells<V>(s: State<V>, items: set<Id>, client: Client, c: Client)
    ensures var after := if items == {} then s else UpdateSubscription(s, items, client);
      && after.cache == s.cache
      && Inbox(after, c) == Inbox(s, c) + if c == client then Answer(s, items - ValSet(s.clientToItems, c)) else []
  {
    Unit(Inbox(s, c));
    SendsAnswer(s, items - ValSet(s.clientToItems, client), client, c);
  }

  // ---------- What is cached ----------

  /** The accepted values of one item, in order. */
  function ValuesOf<V>(items: seq<DataItem<V>>, i: Id): seq<V> {
    if items == [] then []
    else
      var n := |items| - 1;
      ValuesOf(items[..n], i) + if items[n].accepted && items[n].id == i then [items[n].value] else []
  }

  /** What copyFrom makes of values that come one after the other; the first is taken as
      it is. */
  function Copies<V>(start: Option<V>, values: seq<V>, copy: (V, V) -> V): Option<V> {
    if values == [] then start
    else
      var n := |values| - 1;
      var before := Copies(start, values[..n], copy);
      Some(if before == None then values[n] else copy(before.value, values[n]))
  }

  function CachedAs<V>(cache: map<Id, V>, i: Id): Option<V> {
    if i in cache then Some(cache[i]) else None
  }

  /** Each item is cached, by itself, as what copyFrom makes of its accepted values. */
  lemma {:induction false} EachItemIsCached<V>(cache: map<Id, V>, items: seq<DataItem<V>>, copy: (V, V) -> V, i: Id)
    ensures CachedAs(CacheAfter(cache, items, copy), i) == Copies(CachedAs(cache, i), ValuesOf(items, i), copy)
  {
    if items != [] {
      var n := |items| - 1;
      EachItemIsCached(cache, items[..n], copy, i);
      if items[n].accepted && items[n].id == i {
        Snoc(ValuesOf(items[..n], i), items[n].value);
      } else {
        Unit(ValuesOf(items[..n], i));
      }
    }
  }
}
