/** The observer's two set-maps, its item cache and what it announces to the
    framework, message by message, and what holds of every run of messages. Module
    SystemStatusOsObserver shows that the handlers compute these functions. */
module SubscriptionIndex {
  import opened LocUnorderedSetMap
  import opened Options
  import opened Sequences

  // Data item ids and client addresses.
  type Id = nat
  type Client = nat

  /** Calls made on the framework's subscription object, and changes of that object. */
  datatype FwCall =
    | SetObject
    | FwSubscribe(items: set<Id>)
    | FwRequestData(items: set<Id>)
    | FwUnsubscribe(items: set<Id>)

  datatype State<V> = State(
    clientToItems: map<Client, set<Id>>,
    itemToClients: map<Id, set<Client>>,
    cache: map<Id, V>,
    hasSubscription: bool,
    framework: seq<FwCall>,
    // The notify calls made on each client, in order: items with the values they had.
    sent: map<Client, seq<map<Id, V>>>)

  function Fresh<V>(): State<V> {
    State(map[], map[], map[], false, [], map[])
  }

  // ---------- The handlers ----------

  function Cached<V>(cache: map<Id, V>, items: set<Id>): map<Id, V> {
    map i | i in items && i in cache :: cache[i]
  }

  function Inbox<V>(s: State<V>, c: Client): seq<map<Id, V>> {
    if c in s.sent then s.sent[c] else []
  }

  /** One notify call on a client, unless there is nothing to say. */
  function Deliver<V>(s: State<V>, to: Client, items: map<Id, V>): State<V> {
    if items == map[] then s else s.(sent := s.sent[to := Inbox(s, to) + [items]])
  }

  function SendCached<V>(s: State<V>, items: set<Id>, to: Client): State<V> {
    Deliver(s, to, Cached(s.cache, items))
  }

  function Call<V>(s: State<V>, c: FwCall): State<V> {
    s.(framework := s.framework + [c])
  }

  function SetSubscriptionObj<V>(s: State<V>): State<V> {
    var s1 := Call(s.(hasSubscription := true), SetObject);
    var keys := s.itemToClients.Keys;
    if s.itemToClients == map[] then s1
    else Call(Call(s1, FwSubscribe(keys)), FwRequestData(keys))
  }

  function Subscribe<V>(s: State<V>, items: set<Id>, client: Client, toRequestData: bool): State<V> {
    var newItems := NewKeys(s.itemToClients, items, {client});
    var s1 := SendCached(
      s.(itemToClients := AddAll(s.itemToClients, items, {client}),
         clientToItems := AddOne(s.clientToItems, client, items)), items, client);
    if !s.hasSubscription then s1
    else if toRequestData then Call(s1, FwRequestData(newItems))
    else if newItems != {} then Call(s1, FwSubscribe(newItems))
    else s1
  }

  /** The framework calls of an update. */
  function UpdateCalls(calls: seq<FwCall>, subscribe: set<Id>, unsubscribe: set<Id>): seq<FwCall> {
    var c1 := if subscribe != {} then calls + [FwSubscribe(subscribe)] else calls;
    if unsubscribe != {} then c1 + [FwUnsubscribe(unsubscribe)] else c1
  }

  /** An update during which the client is taken off the items in gone. */
  function UpdateWith<V>(s: State<V>, items: set<Id>, client: Client, gone: set<Id>): State<V> {
    var added := items - ValSet(s.clientToItems, client);
    var unsubscribe := GoneKeys(s.itemToClients, gone, {client});
    var trimmed := Trim(s.itemToClients, gone, {client});
    var subscribe := NewKeys(trimmed, added, {client});
    var s1 := SendCached(
      s.(itemToClients := AddAll(trimmed, added, {client}),
         clientToItems := Updated(s.clientToItems, client, items)), added, client);
    if s.hasSubscription then s1.(framework := UpdateCalls(s.framework, subscribe, unsubscribe)) else s1
  }

  /** As the code runs, the items in gone are those that update returns, which are the
      ones that the client keeps. */
  function UpdateSubscription<V>(s: State<V>, items: set<Id>, client: Client): State<V> {
    UpdateWith(s, items, client, items * ValSet(s.clientToItems, client))
  }

  function Unsubscribe<V>(s: State<V>, items: set<Id>, client: Client): State<V> {
    var unused := GoneVals(s.clientToItems, {client}, items);
    var unsubscribe := GoneKeys(s.itemToClients, unused, {client});
    var s1 := s.(clientToItems := Trim(s.clientToItems, {client}, items),
                 itemToClients := Trim(s.itemToClients, unused, {client}));
    if s.hasSubscription && unsubscribe != {} then Call(s1, FwUnsubscribe(unsubscribe)) else s1
  }

  function UnsubscribeAll<V>(s: State<V>, client: Client): State<V> {
    var items := ValSet(s.clientToItems, client);
    if items == {} then s
    else
      var unsubscribe := GoneKeys(s.itemToClients, items, {client});
      var s1 := s.(clientToItems := s.clientToItems - {client},
                   itemToClients := Trim(s.itemToClients, items, {client}));
      if unsubscribe != {} && s.hasSubscription then Call(s1, FwUnsubscribe(unsubscribe)) else s1
  }

  // ---------- Notification ----------

  /** A data item handed to notify: accepted says whether SystemStatus recorded it, and
      value is its content after that. */
  datatype DataItem<V> = DataItem(id: Id, value: V, accepted: bool)

  /** The cache after the items in order; copy(old, new) is copyFrom on a cached item. */
  function CacheAfter<V>(cache: map<Id, V>, items: seq<DataItem<V>>, copy: (V, V) -> V): map<Id, V> {
    if items == [] then cache
    else
      var before, d := CacheAfter(cache, items[..|items|-1], copy), items[|items|-1];
      if !d.accepted then before
      else before[d.id := if d.id in before then copy(before[d.id], d.value) else d.value]
  }

  function Changed<V>(items: seq<DataItem<V>>): set<Id> {
    set k | 0 <= k < |items| && items[k].accepted :: items[k].id
  }

  /** The clients of changed items, as the item side has them. */
  function Affected<V>(s: State<V>, changed: set<Id>): set<Client> {
    set i, c | i in changed && c in ValSet(s.itemToClients, i) :: c
  }

  /** What there is to say to a client about changed items, as the client side has them. */
  function News<V>(s: State<V>, changed: set<Id>, c: Client): map<Id, V> {
    Cached(s.cache, ValSet(s.clientToItems, c) * changed)
  }

  /** One round of notify calls on some clients, in any order. */
  function TellAll<V>(s: State<V>, changed: set<Id>, clients: set<Client>): State<V> {
    s.(sent := map c | c in s.sent.Keys + clients && (c in s.sent || News(s, changed, c) != map[]) ::
         Inbox(s, c) + if c in clients && News(s, changed, c) != map[] then [News(s, changed, c)] else [])
  }

  function Notify<V>(s: State<V>, items: seq<DataItem<V>>, copy: (V, V) -> V): State<V> {
    var s1 := s.(cache := CacheAfter(s.cache, items, copy));
    TellAll(s1, Changed(items), Affected(s1, Changed(items)))
  }

  // ---------- Messages ----------

  /** The public entry points drop requests without items; client pointers are not null. */
  datatype Message<V> =
    | MsgSetSubscriptionObj
    | MsgSubscribe(items: set<Id>, client: Client, toRequestData: bool)
    | MsgUpdate(items: set<Id>, client: Client)
    | MsgUnsubscribe(items: set<Id>, client: Client)
    | MsgUnsubscribeAll(client: Client)
    | MsgNotify(news: seq<DataItem<V>>)

  function Handle<V>(copy: (V, V) -> V, s: State<V>, m: Message<V>): State<V> {
    match m
    case MsgSetSubscriptionObj => SetSubscriptionObj(s)
    case MsgSubscribe(items, client, toRequestData) =>
      if items == {} then s else Subscribe(s, items, client, toRequestData)
    case MsgUpdate(items, client) => if items == {} then s else UpdateSubscription(s, items, client)
    case MsgUnsubscribe(items, client) => if items == {} then s else Unsubscribe(s, items, client)
    case MsgUnsubscribeAll(client) => UnsubscribeAll(s, client)
    case MsgNotify(items) => Notify(s, items, copy)
  }

  // ---------- The two maps are inverse relations ----------

  /** client subscribes to item, according to each of the two maps. */
  ghost predicate Wants<V>(s: State<V>, client: Client, item: Id) {
    Has(s.clientToItems, client, item)
  }

  ghost predicate Reaches<V>(s: State<V>, client: Client, item: Id) {
    Has(s.itemToClients, item, client)
  }

  ghost predicate Inverse<V>(s: State<V>) {
    forall c, i :: Wants(s, c, i) <==> Reaches(s, c, i)
  }

  ghost predicate NoEmptyEntries<V>(s: State<V>) {
    NoEmptySets(s.clientToItems) && NoEmptySets(s.itemToClients)
  }

  /** What is announced to the framework: subscribed or requested since the present
      subscription object was set, and not unsubscribed since. */
  function Announced(calls: seq<FwCall>): set<Id> {
    if calls == [] then {} else NextAnnounced(Announced(calls[..|calls|-1]), calls[|calls|-1])
  }

  function NextAnnounced(before: set<Id>, c: FwCall): set<Id> {
    match c
    case SetObject => {}
    case FwSubscribe(items) => before + items
    case FwRequestData(items) => before + items
    case FwUnsubscribe(items) => before - items
  }

  ghost predicate Announces<V>(s: State<V>) {
    s.hasSubscription ==> Announced(s.framework) == s.itemToClients.Keys
  }

  // ---------- What each message does to the relation ----------

  /** The relation that the messages describe, with no map in sight. */
  ghost predicate Meant<V>(wanted: bool, m: Message<V>, c: Client, i: Id) {
    match m
    case MsgSetSubscriptionObj => wanted
    case MsgSubscribe(items, client, _) => wanted || (c == client && i in items)
    case MsgUpdate(items, client) => if c == client && items != {} then i in items else wanted
    case MsgUnsubscribe(items, client) => wanted && !(c == client && i in items)
    case MsgUnsubscribeAll(client) => wanted && c != client
    case MsgNotify(_) => wanted
  }

  /** The client side always follows the messages. */
  lemma ClientSideFollows<V>(copy: (V, V) -> V, s: State<V>, m: Message<V>, c: Client, i: Id)
    ensures Wants(Handle(copy, s, m), c, i) <==> Meant(Wants(s, c, i), m, c, i)
  {
    match m
    case MsgSetSubscriptionObj =>
    case MsgSubscribe(items, client, _) => AddOneHas(s.clientToItems, client, items, c, i);
    case MsgUpdate(items, client) => UpdatedHas(s.clientToItems, client, items, c, i);
    case MsgUnsubscribe(items, client) => TrimHas(s.clientToItems, {client}, items, c, i);
    case MsgUnsubscribeAll(client) =>
    case MsgNotify(_) =>
  }

  /** The item side follows every message but updates. */
  lemma ItemSideFollows<V>(copy: (V, V) -> V, s: State<V>, m: Message<V>, c: Client, i: Id)
    requires !m.MsgUpdate? && (Wants(s, c, i) <==> Reaches(s, c, i))
    ensures Reaches(Handle(copy, s, m), c, i) <==> Meant(Reaches(s, c, i), m, c, i)
  {
    match m
    case MsgSetSubscriptionObj =>
    case MsgSubscribe(items, client, _) => AddAllHas(s.itemToClients, items, {client}, i, c);
    case MsgUnsubscribe(items, client) =>
      TrimHas(s.itemToClients, GoneVals(s.clientToItems, {client}, items), {client}, i, c);
    case MsgUnsubscribeAll(client) => TrimHas(s.itemToClients, ValSet(s.clientToItems, client), {client}, i, c);
    case MsgNotify(_) =>
  }

  /** What an update does to the item side depends on the items that it takes the
      client off. */
  lemma UpdateOnItemSide<V>(s: State<V>, items: set<Id>, client: Client, gone: set<Id>, c: Client, i: Id)
    requires Wants(s, c, i) <==> Reaches(s, c, i)
    ensures Reaches(UpdateWith(s, items, client, gone), c, i) <==>
              if c != client then Reaches(s, c, i) else if Wants(s, c, i) then i !in gone else i in items
  {
    TrimHas(s.itemToClients, gone, {client}, i, c);
    AddAllHas(Trim(s.itemToClients, gone, {client}), items - ValSet(s.clientToItems, client), {client}, i, c);
  }

  /** An update keeps the two maps inverse exactly when the client is taken off those of
      its items that it no longer wants: the contract that the comments describe would
      do, and so it is what update returns that decides. */
  lemma InverseNeedsGoneItems<V>(s: State<V>, items: set<Id>, client: Client, gone: set<Id>)
    requires Inverse(s) && items != {}
    ensures Inverse(UpdateWith(s, items, client, gone)) <==>
              ValSet(s.clientToItems, client) * gone == ValSet(s.clientToItems, client) - items
  {
    var after, had := UpdateWith(s, items, client, gone), ValSet(s.clientToItems, client);
    forall c, i
      ensures (Wants(after, c, i) <==> Reaches(after, c, i)) <==>
                (c == client ==> (i in had * gone <==> i in had - items))
    {
      assert Wants(s, c, i) <==> Reaches(s, c, i);
      UpdateOnItemSide(s, items, client, gone, c, i);
    }
    if Inverse(after) {
      forall i ensures i in had * gone <==> i in had - items {
        assert Wants(after, client, i) <==> Reaches(after, client, i);
      }
    }
  }

  /** The one way to lose the inverse relation. */
  predicate UpdatesSubscriber<V>(s: State<V>, m: Message<V>) {
    m.MsgUpdate? && m.items != {} && m.client in s.clientToItems
  }

  /** Every message keeps the two maps inverse to each other, except, always, an update
      for a client that has a subscription at that time. */
  lemma InverseKeptUnlessUpdated<V>(copy: (V, V) -> V, s: State<V>, m: Message<V>)
    requires Inverse(s) && NoEmptyEntries(s)
    ensures Inverse(Handle(copy, s, m)) <==> !UpdatesSubscriber(s, m)
  {
    if m.MsgUpdate? && m.items != {} {
      var had := ValSet(s.clientToItems, m.client);
      InverseNeedsGoneItems(s, m.items, m.client, m.items * had);
      assert had * (m.items * had) == had - m.items <==> had == {} by {
        assert forall i :: i in had ==> (i in had * (m.items * had) <==> i !in had - m.items);
      }
    } else if !m.MsgUpdate? {
      forall c, i ensures Wants(Handle(copy, s, m), c, i) <==> Reaches(Handle(copy, s, m), c, i) {
        assert Wants(s, c, i) <==> Reaches(s, c, i);
        ClientSideFollows(copy, s, m, c, i);
        ItemSideFollows(copy, s, m, c, i);
      }
    }
  }

  /** The smallest such update: a client that repeats its one item is forgotten on the
      item side, and the framework is told that nobody wants the item. */
  lemma UpdateLosesSubscriber()
    ensures var s := Run(Newer, [MsgSetSubscriptionObj, MsgSubscribe({7}, 1, false)]);
            var after := Handle(Newer, s, MsgUpdate({7}, 1));
      && Inverse(s) && Wants(after, 1, 7) && !Reaches(after, 1, 7)
      && after.framework == s.framework + [FwUnsubscribe({7})]
  {
    var s := FirstSubscriber();
    assert Wants(s, 1, 7) && Reaches(s, 1, 7);
    var kept, added := {7} * ValSet(s.clientToItems, 1), {7} - ValSet(s.clientToItems, 1);
    assert kept == {7} && added == {};
    UpdateOnItemSide(s, {7}, 1, kept, 1, 7);
    assert GoneKeys(s.itemToClients, kept, {1}) == {7};
    assert NewKeys(Trim(s.itemToClients, kept, {1}), added, {1}) == {};
  }

  lemma EntriesStayFullOnUpdate<V>(s: State<V>, items: set<Id>, client: Client)
    requires NoEmptyEntries(s)
    ensures NoEmptyEntries(UpdateSubscription(s, items, client))
  {
    var kept, added := items * ValSet(s.clientToItems, client), items - ValSet(s.clientToItems, client);
    TrimKeys(s.itemToClients, kept, {client});
    AddKeys(Trim(s.itemToClients, kept, {client}), added, {client});
  }

  lemma SubscribeStaysFull<V>(s: State<V>, items: set<Id>, client: Client, request: bool)
    requires NoEmptyEntries(s)
    ensures NoEmptyEntries(Subscribe(s, items, client, request))
  {
    AddKeys(s.itemToClients, items, {client});
  }

  lemma UnsubscribeStaysFull<V>(s: State<V>, items: set<Id>, client: Client)
    requires NoEmptyEntries(s)
    ensures NoEmptyEntries(Unsubscribe(s, items, client))
  {
    TrimKeys(s.clientToItems, {client}, items);
    TrimKeys(s.itemToClients, GoneVals(s.clientToItems, {client}, items), {client});
  }

  lemma EntriesStayFull<V>(copy: (V, V) -> V, s: State<V>, m: Message<V>)
    requires NoEmptyEntries(s)
    ensures NoEmptyEntries(Handle(copy, s, m))
  {
    match m
    case MsgSetSubscriptionObj =>
    case MsgSubscribe(items, client, request) => SubscribeStaysFull(s, items, client, request);
    case MsgUpdate(items, client) => EntriesStayFullOnUpdate(s, items, client);
    case MsgUnsubscribe(items, client) => UnsubscribeStaysFull(s, items, client);
    case MsgUnsubscribeAll(client) =>
      TrimKeys(s.itemToClients, ValSet(s.clientToItems, client), {client});
    case MsgNotify(_) =>
  }

  // ---------- The framework's view ----------

  lemma CallAnnounces(calls: seq<FwCall>, c: FwCall)
    ensures Announced(calls + [c]) == NextAnnounced(Announced(calls), c)
  {
    assert (calls + [c])[..|calls|] == calls;
  }

  lemma SetObjectAnnounces<V>(s: State<V>)
    ensures Announces(SetSubscriptionObj(s))
  {
    var keys, f := s.itemToClients.Keys, s.framework;
    CallAnnounces(f, SetObject);
    CallAnnounces(f + [SetObject], FwSubscribe(keys));
    CallAnnounces(f + [SetObject] + [FwSubscribe(keys)], FwRequestData(keys));
  }

  lemma SubscribeAnnounces<V>(s: State<V>, items: set<Id>, client: Client, toRequestData: bool)
    requires Announces(s)
    ensures Announces(Subscribe(s, items, client, toRequestData))
  {
    var newItems, after := NewKeys(s.itemToClients, items, {client}), Subscribe(s, items, client, toRequestData);
    AddKeys(s.itemToClients, items, {client});
    CallAnnounces(s.framework, FwSubscribe(newItems));
    CallAnnounces(s.framework, FwRequestData(newItems));
    assert after.itemToClients.Keys == s.itemToClients.Keys + newItems;
  }

  lemma UpdateCallsAnnounce(calls: seq<FwCall>, subscribe: set<Id>, unsubscribe: set<Id>)
    ensures Announced(UpdateCalls(calls, subscribe, unsubscribe)) == Announced(calls) + subscribe - unsubscribe
  {
    var c1 := if subscribe != {} then calls + [FwSubscribe(subscribe)] else calls;
    assert Announced(c1) == Announced(calls) + subscribe by {
      CallAnnounces(calls, FwSubscribe(subscribe));
    }
    assert Announced(UpdateCalls(calls, subscribe, unsubscribe)) == Announced(c1) - unsubscribe by {
      CallAnnounces(c1, FwUnsubscribe(unsubscribe));
    }
  }

  lemma UpdateKeys(m: map<Id, set<Client>>, kept: set<Id>, added: set<Id>, client: Client)
    requires kept !! added
    ensures var trimmed := Trim(m, kept, {client});
      AddAll(trimmed, added, {client}).Keys
        == m.Keys + NewKeys(trimmed, added, {client}) - GoneKeys(m, kept, {client})
  {
    TrimKeys(m, kept, {client});
    AddKeys(Trim(m, kept, {client}), added, {client});
  }

  lemma UpdateAnnounces<V>(s: State<V>, items: set<Id>, client: Client, gone: set<Id>)
    requires Announces(s) && gone !! items - ValSet(s.clientToItems, client)
    ensures Announces(UpdateWith(s, items, client, gone))
  {
    var added := items - ValSet(s.clientToItems, client);
    UpdateKeys(s.itemToClients, gone, added, client);
    UpdateCallsAnnounce(s.framework, NewKeys(Trim(s.itemToClients, gone, {client}), added, {client}),
                        GoneKeys(s.itemToClients, gone, {client}));
  }

  lemma UnsubscribeAnnounces<V>(s: State<V>, unused: set<Id>, client: Client, after: State<V>)
    requires Announces(s) && after.itemToClients == Trim(s.itemToClients, unused, {client})
    requires after.hasSubscription == s.hasSubscription
    requires var gone := GoneKeys(s.itemToClients, unused, {client});
      after.framework == if s.hasSubscription && gone != {} then s.framework + [FwUnsubscribe(gone)] else s.framework
    ensures Announces(after)
  {
    TrimKeys(s.itemToClients, unused, {client});
    CallAnnounces(s.framework, FwUnsubscribe(GoneKeys(s.itemToClients, unused, {client})));
  }

  /** Whatever the message, what is announced to the framework stays exactly the set of
      items that somebody is listed for. */
  lemma AnnouncesKept<V>(copy: (V, V) -> V, s: State<V>, m: Message<V>)
    requires Announces(s)
    ensures Announces(Handle(copy, s, m))
  {
    match m
    case MsgSetSubscriptionObj => SetObjectAnnounces(s);
    case MsgSubscribe(items, client, toRequestData) => SubscribeAnnounces(s, items, client, toRequestData);
    case MsgUpdate(items, client) => UpdateAnnounces(s, items, client, items * ValSet(s.clientToItems, client));
    case MsgUnsubscribe(items, client) =>
      UnsubscribeAnnounces(s, GoneVals(s.clientToItems, {client}, items), client, Unsubscribe(s, items, client));
    case MsgUnsubscribeAll(client) =>
      if ValSet(s.clientToItems, client) != {} {
        UnsubscribeAnnounces(s, ValSet(s.clientToItems, client), client, UnsubscribeAll(s, client));
      }
    case MsgNotify(_) =>
  }

  // ---------- Whole runs ----------

  function Run<V>(copy: (V, V) -> V, ms: seq<Message<V>>): State<V> {
    if ms == [] then Fresh() else Handle(copy, Run(copy, ms[..|ms|-1]), ms[|ms|-1])
  }

  ghost predicate NoSubscriberUpdated<V>(copy: (V, V) -> V, ms: seq<Message<V>>) {
    ms != [] ==>
      NoSubscriberUpdated(copy, ms[..|ms|-1]) && !UpdatesSubscriber(Run(copy, ms[..|ms|-1]), ms[|ms|-1])
  }

  ghost predicate AlwaysInverse<V>(copy: (V, V) -> V, ms: seq<Message<V>>) {
    Inverse(Run(copy, ms)) && (ms != [] ==> AlwaysInverse(copy, ms[..|ms|-1]))
  }

  /** In every run, entries are never empty and, once a subscription object is set, the
      framework is asked for exactly the items that have clients. The two maps are
      inverse relations throughout the run if and only if no update is ever handled for
      a client that has a subscription. */
  lemma {:induction false} EveryRun<V>(copy: (V, V) -> V, ms: seq<Message<V>>)
    ensures NoEmptyEntries(Run(copy, ms)) && Announces(Run(copy, ms))
    ensures AlwaysInverse(copy, ms) <==> NoSubscriberUpdated(copy, ms)
  {
    if ms == [] {
      assert Inverse(Run(copy, ms));
    } else {
      var before, m := Run(copy, ms[..|ms|-1]), ms[|ms|-1];
      EveryRun(copy, ms[..|ms|-1]);
      EntriesStayFull(copy, before, m);
      AnnouncesKept(copy, before, m);
      if Inverse(before) {
        InverseKeptUnlessUpdated(copy, before, m);
      }
    }
  }

  // ---------- What clients are told ----------

  lemma {:induction false} ChangedAreCached<V>(cache: map<Id, V>, items: seq<DataItem<V>>, copy: (V, V) -> V)
    ensures CacheAfter(cache, items, copy).Keys == cache.Keys + Changed(items)
    ensures forall i :: i in cache && i !in Changed(items) ==> CacheAfter(cache, items, copy)[i] == cache[i]
  {
    if items != [] {
      var front, d := items[..|items|-1], items[|items|-1];
      ChangedAreCached(cache, front, copy);
      assert Changed(items) == Changed(front) + if d.accepted then {d.id} else {} by {
        assert items == front + [d];
      }
    }
  }

  /** Where copyFrom copies, each changed item is cached at the value of the last
      accepted item of the round. */
  lemma {:induction false} NewestIsCached<V(!new)>(cache: map<Id, V>, items: seq<DataItem<V>>,
                                                    copy: (V, V) -> V, k: nat)
    requires k < |items| && items[k].accepted
    requires forall j :: k < j < |items| ==> !(items[j].accepted && items[j].id == items[k].id)
    requires forall old' :: copy(old', items[k].value) == items[k].value
    ensures var after := CacheAfter(cache, items, copy);
      items[k].id in after && after[items[k].id] == items[k].value
    decreases |items|
  {
    if k < |items| - 1 {
      NewestIsCached(cache, items[..|items|-1], copy, k);
    } else {
      var before := CacheAfter(cache, items[..k], copy);
      assert items[k].id in before ==> copy(before[items[k].id], items[k].value) == items[k].value;
    }
  }

  /** What a round adds to a client's calls. */
  function Added<V>(s: State<V>, changed: set<Id>, clients: set<Client>, c: Client): seq<map<Id, V>> {
    if c in clients && News(s, changed, c) != map[] then [News(s, changed, c)] else []
  }

  lemma TellAllAdds<V>(s: State<V>, changed: set<Id>, clients: set<Client>, c: Client)
    ensures Inbox(TellAll(s, changed, clients), c) == Inbox(s, c) + Added(s, changed, clients, c)
  {
  }

  /** The client is listed for some changed item. */
  ghost predicate ReachesAny<V>(s: State<V>, c: Client, changed: set<Id>) {
    exists i :: i in changed && Reaches(s, c, i)
  }

  /** What a client should hear of the changed items: all that it subscribes to, with
      their cached values, in one call. */
  function Due<V>(s: State<V>, changed: set<Id>, c: Client): seq<map<Id, V>>
    requires changed <= s.cache.Keys
  {
    var due := ValSet(s.clientToItems, c) * changed;
    if due == {} then [] else [map i | i in due :: s.cache[i]]
  }

  lemma DueIsNews<V>(s: State<V>, changed: set<Id>, c: Client)
    requires changed <= s.cache.Keys
    ensures Due(s, changed, c) == if News(s, changed, c) == map[] then [] else [News(s, changed, c)]
  {
    var due := ValSet(s.clientToItems, c) * changed;
    if due != {} {
      var i :| i in due;
      assert i in News(s, changed, c);
      assert Due(s, changed, c)[0] == News(s, changed, c);
    }
  }

  lemma SameFront<T>(a: seq<T>, b: seq<T>, c: seq<T>)
    ensures a + b == a + c <==> b == c
  {
    assert (a + b)[|a|..] == b && (a + c)[|a|..] == c;
  }

  /** Whatever the state, a round tells a client in one call exactly what is due, or
      nothing at all; and it hears what is due if and only if that is nothing or the item
      side has it for some changed item. */
  lemma RoundIsExact<V>(s: State<V>, items: seq<DataItem<V>>, copy: (V, V) -> V, c: Client)
    ensures var after, changed := Notify(s, items, copy), Changed(items);
      && changed <= after.cache.Keys
      && Inbox(after, c) == Inbox(s, c) + (if ReachesAny(s, c, changed) then Due(after, changed, c) else [])
    ensures var after, changed := Notify(s, items, copy), Changed(items);
      Inbox(after, c) == Inbox(s, c) + Due(after, changed, c) <==>
        ValSet(s.clientToItems, c) * changed == {} || ReachesAny(s, c, changed)
  {
    var changed := Changed(items);
    var s1 := s.(cache := CacheAfter(s.cache, items, copy));
    ChangedAreCached(s.cache, items, copy);
    DueIsNews(s1, changed, c);
    TellAllAdds(s1, changed, Affected(s1, changed), c);
    assert c in Affected(s1, changed) <==> ReachesAny(s, c, changed);
    var added := if ReachesAny(s, c, changed) then Due(s1, changed, c) else [];
    assert Added(s1, changed, Affected(s1, changed), c) == added;
    assert Inbox(s1, c) + added == Inbox(s1, c) + Due(s1, changed, c) <==> added == Due(s1, changed, c) by {
      SameFront(Inbox(s1, c), added, Due(s1, changed, c));
    }
  }

  function Newer(old': int, new': int): int {
    new'
  }

  lemma FirstSubscriber() returns (s: State<int>)
    ensures s == Run(Newer, [MsgSetSubscriptionObj, MsgSubscribe({7}, 1, false)])
    ensures s == State(map[1 := {7}], map[7 := {1}], map[], true, [SetObject, FwSubscribe({7})], map[])
    ensures Inverse(s)
  {
    var m0: Message<int>, m1: Message<int> := MsgSetSubscriptionObj, MsgSubscribe({7}, 1, false);
    assert [m0, m1][..1] == [m0] && [m0][..0] == [];
    s := Run(Newer, [m0, m1]);
    assert Run(Newer, [m0]) == State(map[], map[], map[], true, [SetObject], map[]);
    assert NewKeys(map[], {7}, {1}) == {7} && {} + {1} == {1} && {} + {7} == {7};
  }

  /** The run of UpdateLosesSubscriber goes on with a change of the item: its client is
      told nothing. */
  lemma UpdatedSubscriberMissesNews()
    ensures var s := Handle(Newer, Run(Newer, [MsgSetSubscriptionObj, MsgSubscribe({7}, 1, false)]), MsgUpdate({7}, 1));
            var after := Handle(Newer, s, MsgNotify([DataItem(7, 5, true)]));
      && Wants(after, 1, 7) && 7 in after.cache && after.cache[7] == 5 && Inbox(after, 1) == []
  {
    var s0 := FirstSubscriber();
    var s := Handle(Newer, s0, MsgUpdate({7}, 1));
    var items := [DataItem(7, 5, true)];
    UpdateOnItemSide(s0, {7}, 1, {7} * ValSet(s0.clientToItems, 1), 1, 7);
    assert Changed(items) == {7} by {
      assert items[0].accepted;
    }
    RoundIsExact(s, items, Newer, 1);
    assert items[..0] == [];
  }

  /** The value at which a client was last told an item. */
  function LastTold<V>(inbox: seq<map<Id, V>>, i: Id): Option<V> {
    if inbox == [] then None
    else
      var n := |inbox| - 1;
      if i in inbox[n] then Some(inbox[n][i]) else LastTold(inbox[..n], i)
  }

  /** If c wants i and i is cached, then c knows its cached value. */
  ghost predicate UpToDate<V>(s: State<V>, c: Client, i: Id) {
    Wants(s, c, i) && i in s.cache ==> LastTold(Inbox(s, c), i) == Some(s.cache[i])
  }

  lemma ToldMore<V>(inbox: seq<map<Id, V>>, items: map<Id, V>, i: Id)
    ensures LastTold(inbox + [items], i) == if i in items then Some(items[i]) else LastTold(inbox, i)
  {
    assert (inbox + [items])[..|inbox|] == inbox;
  }

  lemma NotifyTells<V>(s: State<V>, items: seq<DataItem<V>>, copy: (V, V) -> V, c: Client, i: Id)
    ensures var after, changed := Notify(s, items, copy), Changed(items);
      && changed <= after.cache.Keys
      && LastTold(Inbox(after, c), i) ==
           if Wants(s, c, i) && i in changed && ReachesAny(s, c, changed) then Some(after.cache[i])
           else LastTold(Inbox(s, c), i)
  {
    var after, changed := Notify(s, items, copy), Changed(items);
    RoundIsExact(s, items, copy, c);
    var due := Due(after, changed, c);
    Unit(Inbox(s, c));
    assert i in ValSet(s.clientToItems, c) * changed <==> Wants(s, c, i) && i in changed;
    if due != [] {
      assert due == [due[0]] && (i in due[0] <==> Wants(s, c, i) && i in changed);
      ToldMore(Inbox(s, c), due[0], i);
    }
  }

  /** After a notification a client that wants an item and knew its value knows it again
      if and only if the item has not changed, or the item side lists the client for
      some changed item, or the new value is the one it was last told anyway. */
  lemma NotifyKeepsUpToDateExactly<V>(s: State<V>, items: seq<DataItem<V>>, copy: (V, V) -> V, c: Client, i: Id)
    requires Wants(s, c, i) && UpToDate(s, c, i)
    ensures var after := Notify(s, items, copy);
      UpToDate(after, c, i) <==>
        || i !in Changed(items)
        || ReachesAny(s, c, Changed(items))
        || (i in after.cache && LastTold(Inbox(s, c), i) == Some(after.cache[i]))
  {
    ChangedAreCached(s.cache, items, copy);
    NotifyTells(s, items, copy, c, i);
  }

  lemma SubscribedIsTold<V>(s: State<V>, items: set<Id>, to: Client, c: Client, i: Id)
    ensures var after := SendCached(s, items, to);
      LastTold(Inbox(after, c), i) ==
        if c == to && i in items && i in s.cache then Some(s.cache[i]) else LastTold(Inbox(s, c), i)
  {
    var known := Cached(s.cache, items);
    assert i in known <==> i in items && i in s.cache;
    if c == to && known != map[] {
      ToldMore(Inbox(s, c), known, i);
    }
  }

  lemma SubscribeKeepsUpToDate<V>(s: State<V>, items: set<Id>, client: Client, request: bool, c: Client, i: Id)
    requires UpToDate(s, c, i)
    ensures UpToDate(Subscribe(s, items, client, request), c, i)
  {
    AddOneHas(s.clientToItems, client, items, c, i);
    SubscribedIsTold(s, items, client, c, i);
  }

  lemma UpdateKeepsUpToDate<V>(s: State<V>, items: set<Id>, client: Client, c: Client, i: Id)
    requires UpToDate(s, c, i)
    ensures UpToDate(UpdateSubscription(s, items, client), c, i)
  {
    UpdatedHas(s.clientToItems, client, items, c, i);
    SubscribedIsTold(s, items - ValSet(s.clientToItems, client), client, c, i);
  }

  lemma StepKeepsUpToDate<V>(copy: (V, V) -> V, s: State<V>, m: Message<V>, c: Client, i: Id)
    requires (Wants(s, c, i) <==> Reaches(s, c, i)) && UpToDate(s, c, i)
    ensures UpToDate(Handle(copy, s, m), c, i)
  {
    match m
    case MsgSetSubscriptionObj =>
    case MsgSubscribe(items, client, request) => SubscribeKeepsUpToDate(s, items, client, request, c, i);
    case MsgUpdate(items, client) => UpdateKeepsUpToDate(s, items, client, c, i);
    case MsgUnsubscribe(items, client) => TrimHas(s.clientToItems, {client}, items, c, i);
    case MsgUnsubscribeAll(client) =>
    case MsgNotify(items) =>
      if Wants(s, c, i) {
        NotifyKeepsUpToDateExactly(s, items, copy, c, i);
      }
  }

  /** In every run without an update for a subscriber, subscriptions, notifications and
      all: each client was last told each cached item that it subscribes to at the value
      that is cached now. */
  lemma {:induction false} EveryRunKeepsClientsUpToDate<V>(copy: (V, V) -> V, ms: seq<Message<V>>, c: Client, i: Id)
    requires NoSubscriberUpdated(copy, ms)
    ensures UpToDate(Run(copy, ms), c, i)
  {
    if ms != [] {
      var front := ms[..|ms|-1];
      EveryRunKeepsClientsUpToDate(copy, front, c, i);
      EveryRun(copy, front);
      assert Wants(Run(copy, front), c, i) <==> Reaches(Run(copy, front), c, i);
      StepKeepsUpToDate(copy, Run(copy, front), ms[|ms|-1], c, i);
    }
  }
}
