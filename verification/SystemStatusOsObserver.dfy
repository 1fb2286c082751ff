/** The observer object: its handlers update two set-maps and the item cache in place,
    one queued message at a time. Calls on the framework's subscription object and on
    clients are recorded in order. */
module SystemStatusOsObserver {
  import opened LocUnorderedSetMap
  import opened SubscriptionIndex

  class Observer<V> {
    const mClientToDataItems: SetMap<Client, Id>
    const mDataItemToClients: SetMap<Id, Client>
    var mDataItemCache: map<Id, V>
    var mSubscriptionObj: bool
    ghost var framework: seq<FwCall>
    ghost var sent: map<Client, seq<map<Id, V>>>
    // How a cached item takes over another one.
    const copy: (V, V) -> V

    /** The two maps are separate objects, for good. */
    ghost predicate Valid() {
      mClientToDataItems != mDataItemToClients
    }

    ghost function Repr(): set<object> {
      {this, mClientToDataItems, mDataItemToClients}
    }

    ghost function Abs(): State<V>
      reads Repr()
    {
      State(mClientToDataItems.mMap, mDataItemToClients.mMap, mDataItemCache, mSubscriptionObj, framework, sent)
    }

    constructor (copy: (V, V) -> V)
      ensures Valid() && Abs() == Run(copy, []) && fresh(Repr()) && this.copy == copy
    {
      this.copy := copy;
      mClientToDataItems := new SetMap();
      mDataItemToClients := new SetMap();
      mDataItemCache, mSubscriptionObj, framework, sent := map[], false, [], map[];
    }

    method CallFramework(c: FwCall)
      modifies this`framework
      ensures framework == old(framework) + [c]
    {
      framework := framework + [c];
    }

    method ProcSetSubscriptionObj()
      modifies this
      ensures Abs() == SetSubscriptionObj(old(Abs()))
    {
      mSubscriptionObj := true;
      CallFramework(SetObject);
      if mDataItemToClients.mMap != map[] {
        var dis := mDataItemToClients.GetKeys();
        CallFramework(FwSubscribe(dis));
        CallFramework(FwRequestData(dis));
      }
    }

    method SendCachedDataItems(s: set<Id>, to: Client)
      modifies this`sent
      ensures Abs() == SendCached(old(Abs()), s, to)
    {
      var dataItems: map<Id, V> := map[];
      var todo := s;
      while todo != {}
        invariant todo <= s && dataItems == Cached(mDataItemCache, s - todo)
        invariant sent == old(sent)
        decreases todo
      {
        var each :| each in todo;
        todo := todo - {each};
        if each in mDataItemCache {
          dataItems := dataItems[each := mDataItemCache[each]];
        }
      }
      assert s - todo == s;
      if dataItems != map[] {
        sent := Deliver(Abs(), to, dataItems).sent;
      }
    }

    method ProcSubscribe(items: set<Id>, client: Client, toRequestData: bool)
      requires Valid()
      modifies Repr()
      ensures Abs() == Subscribe(old(Abs()), items, client, toRequestData)
    {
      var dataItemsToSubscribe := mDataItemToClients.AddToKeys(items, {client});
      var _ := mClientToDataItems.Add(client, items);
      SendCachedDataItems(items, client);
      if mSubscriptionObj {
        if toRequestData {
          CallFramework(FwRequestData(dataItemsToSubscribe));
        } else if dataItemsToSubscribe != {} {
          CallFramework(FwSubscribe(dataItemsToSubscribe));
        }
      }
    }

    method ProcUpdateSubscription(items: set<Id>, client: Client)
      requires Valid() && items != {}
      modifies Repr()
      ensures Abs() == UpdateSubscription(old(Abs()), items, client)
    {
      var returned, left := mClientToDataItems.Update(client, items);
      var dataItemsToUnsubscribe, _ := mDataItemToClients.TrimOrRemove(returned, {client});
      var dataItemsToSubscribe := mDataItemToClients.AddToKeys(left, {client});
      SendCachedDataItems(left, client);
      if mSubscriptionObj {
        if dataItemsToSubscribe != {} {
          CallFramework(FwSubscribe(dataItemsToSubscribe));
        }
        if dataItemsToUnsubscribe != {} {
          CallFramework(FwUnsubscribe(dataItemsToUnsubscribe));
        }
      }
    }

    method ProcUnsubscribe(items: set<Id>, client: Client)
      requires Valid()
      modifies Repr()
      ensures Abs() == Unsubscribe(old(Abs()), items, client)
    {
      var _, dataItemsUnusedByClient := mClientToDataItems.TrimOrRemove({client}, items);
      var dataItemsToUnsubscribe, _ := mDataItemToClients.TrimOrRemove(dataItemsUnusedByClient, {client});
      if mSubscriptionObj && dataItemsToUnsubscribe != {} {
        CallFramework(FwUnsubscribe(dataItemsToUnsubscribe));
      }
    }

    method ProcUnsubscribeAll(client: Client)
      requires Valid()
      modifies Repr()
      ensures Abs() == UnsubscribeAll(old(Abs()), client)
    {
      var diByClient := mClientToDataItems.GetValSet(client);
      if diByClient != {} {
        mClientToDataItems.Remove(client);
        var dataItemsToUnsubscribe, _ := mDataItemToClients.TrimOrRemove(diByClient, {client});
        if dataItemsToUnsubscribe != {} && mSubscriptionObj {
          CallFramework(FwUnsubscribe(dataItemsToUnsubscribe));
        }
      }
    }

    /** The queue hands over one message; requests without items were not queued. */
    method Proc(m: Message<V>)
      requires Valid()
      modifies Repr()
      ensures Abs() == Handle(copy, old(Abs()), m)
    {
      match m
      case MsgSetSubscriptionObj => ProcSetSubscriptionObj();
      case MsgSubscribe(items, client, toRequestData) =>
        if items != {} {
          ProcSubscribe(items, client, toRequestData);
        }
      case MsgUpdate(items, client) =>
        if items != {} {
          ProcUpdateSubscription(items, client);
        }
      case MsgUnsubscribe(items, client) =>
        if items != {} {
          ProcUnsubscribe(items, client);
        }
      case MsgUnsubscribeAll(client) => ProcUnsubscribeAll(client);
      case MsgNotify(items) => ProcNotify(items);
    }

    /** Returns whether SystemStatus recorded the item; if so the cache takes it over. */
    method UpdateCache(d: DataItem<V>) returns (dataItemUpdated: bool)
      modifies this`mDataItemCache
      ensures dataItemUpdated == d.accepted
      ensures mDataItemCache == CacheAfter(old(mDataItemCache), [d], copy)
    {
      assert [d][..0] == [];
      dataItemUpdated := d.accepted;
      if dataItemUpdated {
        if d.id !in mDataItemCache {
          mDataItemCache := mDataItemCache[d.id := d.value];
        } else {
          mDataItemCache := mDataItemCache[d.id := copy(mDataItemCache[d.id], d.value)];
        }
      }
    }

    method UpdateCacheWithAll(items: seq<DataItem<V>>) returns (dataItemIdsToBeSent: set<Id>)
      modifies this`mDataItemCache
      ensures dataItemIdsToBeSent == Changed(items)
      ensures mDataItemCache == CacheAfter(old(mDataItemCache), items, copy)
    {
      dataItemIdsToBeSent := {};
      for k := 0 to |items|
        invariant mDataItemCache == CacheAfter(old(mDataItemCache), items[..k], copy)
        invariant dataItemIdsToBeSent == Changed(items[..k])
      {
        assert items[..k+1][..k] == items[..k] && items[..k+1] == items[..k] + [items[k]];
        assert [items[k]][..0] == [];
        var updated := UpdateCache(items[k]);
        if updated {
          dataItemIdsToBeSent := dataItemIdsToBeSent + {items[k].id};
        }
      }
      assert items[..|items|] == items;
    }

    method AffectedClients(changed: set<Id>) returns (clientSet: set<Client>)
      ensures clientSet == Affected(Abs(), changed)
    {
      clientSet := {};
      var todo := changed;
      while todo != {}
        invariant todo <= changed && clientSet == Affected(Abs(), changed - todo)
        decreases todo
      {
        var each :| each in todo;
        assert changed - (todo - {each}) == (changed - todo) + {each};
        todo := todo - {each};
        clientSet := clientSet + mDataItemToClients.GetValSet(each);
      }
      assert changed - todo == changed;
    }

    /** Drops from the client's items those that have not changed, one by one. */
    method ChangedItemsOf(client: Client, changed: set<Id>) returns (items: set<Id>)
      ensures items == ValSet(mClientToDataItems.mMap, client) * changed
    {
      var all := mClientToDataItems.GetValSet(client);
      items := all;
      var todo := all;
      while todo != {}
        invariant todo <= all && items == all - ((all - todo) - changed)
        decreases todo
      {
        var each :| each in todo;
        todo := todo - {each};
        if each !in changed {
          items := items - {each};
        }
      }
    }

    method NotifyClients(changed: set<Id>, clientSet: set<Client>)
      modifies this`sent
      ensures Abs() == TellAll(old(Abs()), changed, clientSet)
    {
      ghost var s := Abs();
      TellNobody(s, changed);
      var todo := clientSet;
      while todo != {}
        invariant todo <= clientSet && Abs() == TellAll(s, changed, clientSet - todo)
        decreases todo
      {
        var client :| client in todo;
        var dataItemIdsForThisClient := ChangedItemsOf(client, changed);
        SendCachedDataItems(dataItemIdsForThisClient, client);
        TellOneMore(s, changed, clientSet - todo, client);
        assert clientSet - (todo - {client}) == (clientSet - todo) + {client};
        todo := todo - {client};
      }
      assert clientSet - todo == clientSet;
    }

    /** Brings the cache up to date and makes one round of calls. */
    method ProcNotify(items: seq<DataItem<V>>)
      requires Valid()
      modifies Repr()
      ensures Abs() == Notify(old(Abs()), items, copy)
    {
      var dataItemIdsToBeSent := UpdateCacheWithAll(items);
      var clientSet := AffectedClients(dataItemIdsToBeSent);
      NotifyClients(dataItemIdsToBeSent, clientSet);
    }
  }

  lemma SameSent<V>(a: map<Client, seq<map<Id, V>>>, b: map<Client, seq<map<Id, V>>>)
    requires forall c :: c in a <==> c in b
    requires forall c :: c in a && c in b ==> a[c] == b[c]
    ensures a == b
  {
  }

  lemma TellNobody<V>(s: State<V>, changed: set<Id>)
    ensures TellAll(s, changed, {}) == s
  {
    forall c | c in s.sent ensures TellAll(s, changed, {}).sent[c] == s.sent[c] {
      assert s.sent[c] + [] == s.sent[c];
    }
    SameSent(TellAll(s, changed, {}).sent, s.sent);
  }

  lemma OneMoreAt<V>(s: State<V>, changed: set<Id>, done: set<Client>, c: Client, d: Client)
    requires c !in done
    ensures var before := TellAll(s, changed, done);
            var after := Deliver(before, c, News(before, changed, c));
            var more := TellAll(s, changed, done + {c});
      (d in more.sent <==> d in after.sent) && Inbox(more, d) == Inbox(after, d)
  {
    TellAllAdds(s, changed, done, d);
    TellAllAdds(s, changed, done + {c}, d);
    assert Inbox(s, d) + [] == Inbox(s, d);
  }

  lemma TellOneMore<V>(s: State<V>, changed: set<Id>, done: set<Client>, c: Client)
    requires c !in done
    ensures var before := TellAll(s, changed, done);
      TellAll(s, changed, done + {c}) == Deliver(before, c, News(before, changed, c))
  {
    var before := TellAll(s, changed, done);
    var after, more := Deliver(before, c, News(before, changed, c)), TellAll(s, changed, done + {c});
    forall d ensures (d in more.sent <==> d in after.sent) && Inbox(more, d) == Inbox(after, d) {
      OneMoreAt(s, changed, done, c, d);
    }
    assert forall d :: d in more.sent && d in after.sent ==>
      more.sent[d] == Inbox(more, d) && after.sent[d] == Inbox(after, d);
    SameSent(more.sent, after.sent);
  }
}
