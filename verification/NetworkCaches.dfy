/** The two places that remember the connected networks: the newest SystemStatus entry,
    and the observer's cached item, which is brought up to date by copyFrom. */
module NetworkCaches {
  import opened Options
  import opened ReportHistory
  import opened NetworkTable

  // ---------- copyFrom ----------

  /** The network type behind the raw type of the platform. */
  function NormalizedType(raw: int): int {
    match raw
    case 100 => 1
    case 101 => 2
    case 102 => 3
    case 201 => TYPE_MOBILE
    case 202 => 6
    case 203 => 7
    case 204 => 4
    case 205 => 5
    case 220 => 8
    case _ => TYPE_UNKNOWN
  }

  function RawType(ty: int): int {
    match ty
    case 0 => 201
    case 1 => 100
    case 2 => 101
    case 3 => 102
    case 4 => 204
    case 5 => 205
    case 6 => 202
    case 7 => 203
    case 8 => 220
    case _ => 300
  }

  function TypeMask(ty: int): Mask {
    if 0 <= ty < TYPE_UNKNOWN then {ty} else {}
  }

  /** The test that makes copyFrom stop early: everything is the same and the APN is not. */
  predicate SameButApn(s: NetInfo, d: NetInfo) {
    && s.allTypes == d.allTypes && NormalizedType(s.networkType) == NormalizedType(d.networkType)
    && s.typeName == d.typeName && s.subTypeName == d.subTypeName && s.available == d.available
    && s.connected == d.connected && s.roaming == d.roaming && s.table == d.table
    && s.handle == d.handle && s.apn != d.apn
  }

  /** What copyFrom makes of the cached item s when given d. */
  function Copied(s: NetInfo, d: NetInfo): NetInfo {
    if SameButApn(s, d) then s
    else
      var ty := NormalizedType(d.networkType);
      d.(allTypes := if d.allTypes == {} then TypeMask(ty) else d.allTypes,
         networkType := if NormalizedType(s.networkType) != ty then RawType(ty) else s.networkType)
  }

  /** The table is always taken over; the type mask exactly unless it is empty and the
      item's own type has a bit, which is then put back; the APN exactly unless it is
      the only thing that changed. */
  lemma CopiedFields(s: NetInfo, d: NetInfo)
    ensures Copied(s, d).table == d.table
    ensures Copied(s, d).allTypes == d.allTypes <==>
              d.allTypes != {} || TypeMask(NormalizedType(d.networkType)) == {} || SameButApn(s, d)
    ensures Copied(s, d).apn == d.apn <==> !SameButApn(s, d)
  {
  }

  // ---------- Both caches over a stream of items ----------

  /** The recorded history and the observer's cached item. */
  datatype Caches = Caches(history: seq<Entry<NetInfo>>, cached: Option<NetInfo>)

  function Newest(c: Caches): NetInfo
    requires c.history != []
  {
    c.history[|c.history|-1].value
  }

  /** The data item after SystemStatus has recorded it: mask and table are those of the
      newest entry, all else is as it came. */
  function Merged(c: Caches, item: NetInfo): NetInfo
    requires c.history != []
  {
    item.(allTypes := Newest(c).allTypes, table := Newest(c).table)
  }

  /** One network item goes through SystemStatus and, if recorded, the observer's cache. */
  function Notify(c: Caches, item: NetInfo, time: int): Caches {
    var (log, changed) := Offer(RULES, c.history, item, time);
    var c1 := c.(history := LastItems(log));
    if !changed || c1.history == [] then c1
    else
      var d := Merged(c1, item);
      c1.(cached := Some(if c.cached == None then d else Copied(c.cached.value, d)))
  }

  function NotifyAll(items: seq<NetInfo>, times: seq<int>): Caches
    requires |items| == |times|
  {
    if items == [] then Caches([], None)
    else
      var n := |items| - 1;
      Notify(NotifyAll(items[..n], times[..n]), items[n], times[n])
  }

  ghost predicate TablesAgree(c: Caches) {
    if c.history == [] then c.cached == None
    else c.cached.Some? && c.cached.value.table == Newest(c).table
  }

  ghost predicate MasksAgree(c: Caches) {
    c.history != [] && c.cached.Some? ==> c.cached.value.allTypes == Newest(c).allTypes
  }

  lemma UnchangedNewest(c: Caches, item: NetInfo, time: int)
    requires c.history != [] && !Offer(RULES, c.history, item, time).1
    ensures Notify(c, item, time).history != [] && Newest(Notify(c, item, time)) == Newest(c)
    ensures Notify(c, item, time).cached == c.cached
  {
  }

  lemma ChangedNewest(c: Caches, item: NetInfo, time: int)
    requires Offer(RULES, c.history, item, time).1
    ensures var after := Notify(c, item, time);
      && after.history != []
      && var d := Merged(after, item);
         after.cached == Some(if c.cached == None then d else Copied(c.cached.value, d))
  {
  }

  /** In every run the observer shows the table of the newest recorded entry. */
  lemma {:induction false} TablesAlwaysAgree(items: seq<NetInfo>, times: seq<int>)
    requires |items| == |times|
    ensures TablesAgree(NotifyAll(items, times))
  {
    if items != [] {
      var n := |items| - 1;
      var c := NotifyAll(items[..n], times[..n]);
      TablesAlwaysAgree(items[..n], times[..n]);
      if Offer(RULES, c.history, items[n], times[n]).1 {
        ChangedNewest(c, items[n], times[n]);
        if c.cached.Some? {
          CopiedFields(c.cached.value, Merged(Notify(c, items[n], times[n]), items[n]));
        }
      } else {
        UnchangedNewest(c, items[n], times[n]);
      }
    }
  }

  /** Whether SystemStatus will record the item as a change. */
  predicate Records(c: Caches, item: NetInfo) {
    c.history == [] || !Equals(Newest(c), Collate(item, Newest(c)))
  }

  /** The item as the observer will be given it. */
  function Given(c: Caches, item: NetInfo): NetInfo
    requires c.history != []
  {
    item.(allTypes := CollatedTypes(item, Newest(c)), table := CollatedTable(item, Newest(c)))
  }

  /** The items that make the masks differ: they are recorded with an empty mask although
      their own type has a bit, which the observer's copy gets instead, unless it stops
      early because all but the APN is there already. */
  predicate LosesMask(c: Caches, item: NetInfo) {
    && c.history != [] && c.cached.Some? && Records(c, item)
    && CollatedTypes(item, Newest(c)) == {} && TypeMask(NormalizedType(item.networkType)) != {}
    && !SameButApn(c.cached.value, Given(c, item))
  }

  lemma RecordsIsVerdict(c: Caches, item: NetInfo, time: int)
    ensures Offer(RULES, c.history, item, time).1 <==> Records(c, item)
    ensures Records(c, item) && c.history != [] ==> Merged(Notify(c, item, time), item) == Given(c, item)
  {
  }

  /** One item, by what can be seen before it: an item that is recorded makes the type
      masks agree if and only if it does not lose the mask; any other leaves them as they
      were. */
  lemma MasksAgreeExactly(c: Caches, item: NetInfo, time: int)
    requires TablesAgree(c)
    ensures MasksAgree(Notify(c, item, time)) <==> if Records(c, item) then !LosesMask(c, item) else MasksAgree(c)
  {
    RecordsIsVerdict(c, item, time);
    if Records(c, item) {
      ChangedNewest(c, item, time);
      if c.cached.Some? {
        CopiedFields(c.cached.value, Merged(Notify(c, item, time), item));
      }
    } else {
      UnchangedNewest(c, item, time);
    }
  }

  /** The last recorded item of a stream did not lose the mask. */
  predicate LastKeepsMask(items: seq<NetInfo>, times: seq<int>)
    requires |items| == |times|
  {
    items == [] ||
      var n := |items| - 1;
      var c := NotifyAll(items[..n], times[..n]);
      if Records(c, items[n]) then !LosesMask(c, items[n]) else LastKeepsMask(items[..n], times[..n])
  }

  /** After every stream the two caches hold the same mask if and only if the last item
      that was recorded did not lose it. */
  lemma {:induction false} EveryRunOfMasks(items: seq<NetInfo>, times: seq<int>)
    requires |items| == |times|
    ensures MasksAgree(NotifyAll(items, times)) <==> LastKeepsMask(items, times)
  {
    if items != [] {
      var n := |items| - 1;
      EveryRunOfMasks(items[..n], times[..n]);
      TablesAlwaysAgree(items[..n], times[..n]);
      MasksAgreeExactly(NotifyAll(items[..n], times[..n]), items[n], times[n]);
    }
  }

  /** A run in which they do not: a WLAN connects and disconnects. The recorded mask is
      empty then, and the observer's still shows WLAN. */
  lemma MasksCanDisagree()
    ensures var table := OwnTable(5, 1);
            var up := NetInfo({1}, 100, "", "", true, true, false, table, 5, "");
            var down := up.(connected := false);
            var c := NotifyAll([up, down], [0, 1]);
      && c.history != [] && Newest(c).allTypes == {} && c.cached.Some? && c.cached.value.allTypes == {1}
  {
    var table := OwnTable(5, 1);
    var up := NetInfo({1}, 100, "", "", true, true, false, table, 5, "");
    var down := up.(connected := false);
    var c0, c1 := NotifyAll([], []), NotifyAll([up], [0]);
    assert [up][..0] == [] && [0][..0] == [];
    assert c1 == Notify(c0, up, 0) && c1.history == [Entry(up, 0)];
    assert c1.cached == Some(up.(allTypes := {1}, table := table));
    UsedIs(table, 1);
    assert OthersOfType(table, 1, 5, 100) == OthersOfType(table, 0, 5, 100) == 0;
    assert CollatedTypes(down, up) == {};
    assert [up, down][..1] == [up] && [0, 1][..1] == [0];
    ChangedNewest(c1, down, 1);
    CopiedFields(up, Merged(Notify(c1, down, 1), down));
  }
}
