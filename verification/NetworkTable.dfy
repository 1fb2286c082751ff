/** The table of connected networks inside a network-info item: how an item is merged
    with the newest recorded one, and that a stream of items keeps a bounded map from
    network handle to network type. */
module NetworkTable {
  import opened ReportHistory
  import opened Sequences

  const MAX_NETWORK_HANDLES: nat := 10
  const UNKNOWN: nat := 0xFFFF_FFFF_FFFF_FFFF
  const TYPE_MOBILE: int := 0
  const TYPE_UNKNOWN: int := 10

  datatype Slot = Slot(handle: nat, networkType: int)

  const FREE := Slot(UNKNOWN, TYPE_UNKNOWN)

  // A type mask is the set of its one bits; or is union, and-not is difference.
  type Mask = set<nat>

  datatype NetInfo = NetInfo(
    allTypes: Mask,
    networkType: int,
    typeName: string,
    subTypeName: string,
    available: bool,
    connected: bool,
    roaming: bool,
    table: seq<Slot>,
    handle: nat,
    apn: string)

  // ---------- The table as the loops see it ----------

  /** The first free place from i on, or the end. */
  function FreeFrom(t: seq<Slot>, i: nat): (n: nat)
    requires i <= |t|
    ensures i <= n <= |t|
    decreases |t| - i
  {
    if i == |t| || t[i].handle == UNKNOWN then i else FreeFrom(t, i + 1)
  }

  /** The number of slots before the first free one. */
  function Used(t: seq<Slot>): (n: nat)
    ensures n <= |t|
  {
    FreeFrom(t, 0)
  }

  predicate HasHandle(t: seq<Slot>, n: nat, h: nat)
    requires n <= |t|
  {
    n > 0 && (t[n-1].handle == h || HasHandle(t, n - 1, h))
  }

  /** A connection takes the first free slot unless its handle is listed already. */
  function Connect(t: seq<Slot>, h: nat, ty: int): seq<Slot> {
    var n := Used(t);
    if n == |t| || h == UNKNOWN || HasHandle(t, n, h) then t else t[n := Slot(h, ty)]
  }

  /** The last of the first n slots that holds exactly s, or n. */
  function PlaceOf(t: seq<Slot>, n: nat, s: Slot): (i: nat)
    requires n <= |t|
    ensures i <= n && (i < n ==> t[i] == s)
  {
    if n == 0 then 0
    else if t[n-1] == s then n - 1
    else
      var i := PlaceOf(t, n - 1, s);
      if i == n - 1 then n else i
  }

  /** A disconnection moves the last used slot into the place of its own. */
  function Disconnect(t: seq<Slot>, h: nat, ty: int): seq<Slot> {
    var n := Used(t);
    var i := PlaceOf(t, n, Slot(h, ty));
    if i == n then t else t[i := t[n-1]][n-1 := FREE]
  }

  /** How many other connections of a type there are. */
  function OthersOfType(t: seq<Slot>, n: nat, h: nat, ty: int): nat
    requires n <= |t|
  {
    if n == 0 then 0
    else OthersOfType(t, n - 1, h, ty) + if t[n-1].networkType == ty && t[n-1].handle != h then 1 else 0
  }

  // ---------- collate and equals ----------

  function CollatedTable(s: NetInfo, cur: NetInfo): seq<Slot> {
    if s.connected then Connect(cur.table, s.handle, s.networkType)
    else if s.allTypes != {} then Disconnect(cur.table, s.handle, s.networkType)
    else cur.table
  }

  /** On the last disconnection of a type the other recorded types remain; otherwise a
      disconnected item keeps its own mask. */
  function CollatedTypes(s: NetInfo, cur: NetInfo): Mask {
    if s.connected then s.allTypes + cur.allTypes
    else if s.allTypes != {} && OthersOfType(cur.table, Used(cur.table), s.handle, s.networkType) == 0
    then cur.allTypes - s.allTypes
    else s.allTypes
  }

  function CollatedApn(s: NetInfo, cur: NetInfo): string {
    if s.networkType != TYPE_MOBILE && cur.apn != "" then cur.apn else s.apn
  }

  /** The item as it is recorded when cur is the newest recorded one. */
  function Collate(s: NetInfo, cur: NetInfo): NetInfo {
    s.(table := CollatedTable(s, cur), allTypes := CollatedTypes(s, cur), apn := CollatedApn(s, cur))
  }

  predicate Equals(a: NetInfo, b: NetInfo) {
    a.allTypes == b.allTypes && a.connected == b.connected && a.table == b.table && a.apn == b.apn
  }

  const RULES: Rules<NetInfo> := Rules(_ => false, Collate, Equals)

  // ---------- The map that the table stands for ----------

  /** Used slots come first, hold distinct handles, and every later slot is free. */
  ghost predicate WellFormed(t: seq<Slot>) {
    && |t| == MAX_NETWORK_HANDLES
    && (forall i :: Used(t) <= i < |t| ==> t[i].handle == UNKNOWN)
    && (forall i, j :: 0 <= i < j < Used(t) ==> t[i].handle != t[j].handle)
  }

  ghost function AsMap(t: seq<Slot>, n: nat): map<nat, int>
    requires n <= |t|
  {
    if n == 0 then map[] else AsMap(t, n - 1)[t[n-1].handle := t[n-1].networkType]
  }

  ghost function Networks(t: seq<Slot>): map<nat, int> {
    AsMap(t, Used(t))
  }

  ghost function Inserted(m: map<nat, int>, h: nat, ty: int): map<nat, int> {
    if h == UNKNOWN || h in m || |m| == MAX_NETWORK_HANDLES then m else m[h := ty]
  }

  ghost function Removed(m: map<nat, int>, h: nat, ty: int): map<nat, int> {
    if h in m && m[h] == ty then m - {h} else m
  }

  lemma {:induction false} AsMapHas(t: seq<Slot>, n: nat, h: nat)
    requires n <= |t|
    ensures h in AsMap(t, n) <==> HasHandle(t, n, h)
  {
    if n > 0 {
      AsMapHas(t, n - 1, h);
    }
  }

  /** The table stands for a map with as many entries as it has used slots. */
  lemma {:induction false} AsMapIsExact(t: seq<Slot>, n: nat)
    requires n <= |t| && forall i, j :: 0 <= i < j < n ==> t[i].handle != t[j].handle
    ensures |AsMap(t, n)| == n
    ensures forall i :: 0 <= i < n ==> t[i].handle in AsMap(t, n) && AsMap(t, n)[t[i].handle] == t[i].networkType
  {
    if n > 0 {
      AsMapIsExact(t, n - 1);
      AsMapHas(t, n - 1, t[n-1].handle);
      HasHandleIs(t, n - 1, t[n-1].handle);
    }
  }

  lemma {:induction false} AsMapLocal(t: seq<Slot>, u: seq<Slot>, n: nat)
    requires n <= |t| && n <= |u| && t[..n] == u[..n]
    ensures AsMap(t, n) == AsMap(u, n)
  {
    if n > 0 {
      assert t[..n][n-1] == u[..n][n-1];
      assert t[..n-1] == t[..n][..n-1] && u[..n-1] == u[..n][..n-1];
      AsMapLocal(t, u, n - 1);
    }
  }

  lemma {:induction false} FreeFromIs(t: seq<Slot>, i: nat, n: nat)
    requires i <= n <= |t| && forall j :: i <= j < n ==> t[j].handle != UNKNOWN
    requires n < |t| ==> t[n].handle == UNKNOWN
    ensures FreeFrom(t, i) == n
    decreases n - i
  {
    if i < n {
      FreeFromIs(t, i + 1, n);
    }
  }

  lemma UsedIs(t: seq<Slot>, n: nat)
    requires n <= |t| && forall j :: 0 <= j < n ==> t[j].handle != UNKNOWN
    requires n < |t| ==> t[n].handle == UNKNOWN
    ensures Used(t) == n
  {
    FreeFromIs(t, 0, n);
  }

  lemma {:induction false} BeforeFree(t: seq<Slot>, i: nat)
    requires i <= |t|
    ensures forall j :: i <= j < FreeFrom(t, i) ==> t[j].handle != UNKNOWN
    ensures FreeFrom(t, i) < |t| ==> t[FreeFrom(t, i)].handle == UNKNOWN
    decreases |t| - i
  {
    if i < |t| && t[i].handle != UNKNOWN {
      BeforeFree(t, i + 1);
    }
  }

  lemma {:induction false} HasHandleIs(t: seq<Slot>, n: nat, h: nat)
    requires n <= |t|
    ensures HasHandle(t, n, h) <==> exists i :: 0 <= i < n && t[i].handle == h
  {
    if n > 0 {
      HasHandleIs(t, n - 1, h);
      assert t[n-1].handle == h || !(t[n-1].handle == h);
    }
  }

  lemma {:induction false} PlaceOfIs(t: seq<Slot>, n: nat, s: Slot)
    requires n <= |t| && PlaceOf(t, n, s) == n
    ensures forall j :: 0 <= j < n ==> t[j] != s
  {
    if n > 0 {
      PlaceOfIs(t, n - 1, s);
    }
  }

  /** A connection inserts, when the handle is new and there is room. */
  lemma ConnectRefines(t: seq<Slot>, h: nat, ty: int)
    requires WellFormed(t)
    ensures WellFormed(Connect(t, h, ty))
    ensures Networks(Connect(t, h, ty)) == Inserted(Networks(t), h, ty)
  {
    var n, u := Used(t), Connect(t, h, ty);
    BeforeFree(t, 0);
    AsMapIsExact(t, n);
    AsMapHas(t, n, h);
    HasHandleIs(t, n, h);
    if u != t {
      UsedIs(u, n + 1);
      AsMapLocal(t, u, n);
    }
  }

  /** A disconnection removes the handle when it is listed with the same type. */
  lemma DisconnectRefines(t: seq<Slot>, h: nat, ty: int)
    requires WellFormed(t)
    ensures WellFormed(Disconnect(t, h, ty))
    ensures Networks(Disconnect(t, h, ty)) == Removed(Networks(t), h, ty)
  {
    var n, u := Used(t), Disconnect(t, h, ty);
    var i := PlaceOf(t, n, Slot(h, ty));
    BeforeFree(t, 0);
    AsMapIsExact(t, n);
    if i < n {
      MovedSlots(t, u, i, n);
      MovedMap(t, u, i, n);
    } else {
      PlaceOfIs(t, n, Slot(h, ty));
      AsMapHas(t, n, h);
      HasHandleIs(t, n, h);
    }
  }

  /** Overwriting one of the first n slots with a handle that none of them has. */
  lemma {:induction false} OverwrittenSlot(t: seq<Slot>, n: nat, i: nat, s: Slot)
    requires i < n <= |t| && forall j, k :: 0 <= j < k < n ==> t[j].handle != t[k].handle
    requires forall j :: 0 <= j < n ==> t[j].handle != s.handle
    ensures AsMap(t[i := s], n) == (AsMap(t, n) - {t[i].handle})[s.handle := s.networkType]
  {
    if i == n - 1 {
      AsMapLocal(t, t[i := s], i);
      LastIsNew(t, n);
    } else {
      OverwrittenSlot(t, n - 1, i, s);
    }
  }

  lemma MovedSlots(t: seq<Slot>, u: seq<Slot>, i: nat, n: nat)
    requires WellFormed(t) && i < n == Used(t) && u == t[i := t[n-1]][n-1 := FREE]
    ensures WellFormed(u) && Used(u) == n - 1
  {
    BeforeFree(t, 0);
    assert forall j :: 0 <= j < n - 1 ==> u[j] == t[if j == i then n - 1 else j];
    UsedIs(u, n - 1);
  }

  lemma MovedMap(t: seq<Slot>, u: seq<Slot>, i: nat, n: nat)
    requires i < n <= |t| && forall j, k :: 0 <= j < k < n ==> t[j].handle != t[k].handle
    requires |u| == |t| && u[..n-1] == t[i := t[n-1]][..n-1]
    ensures AsMap(u, n - 1) == AsMap(t, n) - {t[i].handle}
  {
    AsMapLocal(u, t[i := t[n-1]], n - 1);
    LastIsNew(t, n);
    if i < n - 1 {
      OverwrittenSlot(t, n - 1, i, t[n-1]);
      PutAndTake(AsMap(t, n - 1), t[i].handle, t[n-1].handle, t[n-1].networkType);
    } else {
      AsMapLocal(t[i := t[n-1]], t, n - 1);
    }
  }

  lemma LastIsNew(t: seq<Slot>, n: nat)
    requires 0 < n <= |t| && forall j, k :: 0 <= j < k < n ==> t[j].handle != t[k].handle
    ensures t[n-1].handle !in AsMap(t, n - 1)
  {
    AsMapHas(t, n - 1, t[n-1].handle);
    HasHandleIs(t, n - 1, t[n-1].handle);
  }

  lemma PutAndTake(m: map<nat, int>, a: nat, b: nat, v: int)
    requires a != b
    ensures (m - {a})[b := v] == m[b := v] - {a}
  {
  }

  // ---------- Streams of items ----------

  /** What one item does to the bounded map. */
  ghost function NetworksAfter(m: map<nat, int>, s: NetInfo): map<nat, int> {
    if s.connected then Inserted(m, s.handle, s.networkType)
    else if s.allTypes != {} then Removed(m, s.handle, s.networkType)
    else m
  }

  lemma CollateRefines(s: NetInfo, cur: NetInfo)
    requires WellFormed(cur.table)
    ensures WellFormed(Collate(s, cur).table)
    ensures Networks(Collate(s, cur).table) == NetworksAfter(Networks(cur.table), s)
  {
    if s.connected {
      ConnectRefines(cur.table, s.handle, s.networkType);
    } else if s.allTypes != {} {
      DisconnectRefines(cur.table, s.handle, s.networkType);
    }
  }

  /** The map after a stream of items, starting from m. */
  ghost function NetworksOf(m: map<nat, int>, inputs: seq<Input<NetInfo>>): map<nat, int> {
    if inputs == [] then m
    else
      var n := |inputs| - 1;
      NetworksAfter(NetworksOf(m, inputs[..n]), inputs[n].value)
  }

  ghost predicate Items(inputs: seq<Input<NetInfo>>) {
    forall i :: 0 <= i < |inputs| ==> inputs[i].Item?
  }

  /** The newest entry's table is well formed and stands for m. */
  ghost predicate Stands(h: seq<Entry<NetInfo>>, m: map<nat, int>) {
    h != [] && WellFormed(h[|h|-1].value.table) && Networks(h[|h|-1].value.table) == m
  }

  /** It stands for the bounded map that the first item's own table, which is recorded as
      it came, turns into. */
  ghost predicate Follows(first: Input<NetInfo>, inputs: seq<Input<NetInfo>>) {
    Stands(HistoryOf(RULES, [first] + inputs), NetworksOf(Networks(first.value.table), inputs))
  }

  /** It is so over every stream. */
  lemma {:induction false} NewestTableFollows(first: Input<NetInfo>, inputs: seq<Input<NetInfo>>)
    requires first.Item? && WellFormed(first.value.table) && Items(inputs)
    ensures Follows(first, inputs)
  {
    if inputs == [] {
      Unit([first]);
      FirstHistory(first);
    } else {
      var front, last := inputs[..|inputs|-1], inputs[|inputs|-1];
      NextTake(inputs, |inputs| - 1);
      NewestTableFollows(first, front);
      FollowsOn(first, front, last);
      assert inputs == front + [last];
    }
  }

  lemma StandsOn(h: seq<Entry<NetInfo>>, m: map<nat, int>, s: NetInfo, time: int)
    requires Stands(h, m)
    ensures Stands(LastItems(Offer(RULES, h, s, time).0), NetworksAfter(m, s))
  {
    CollateRefines(s, h[|h|-1].value);
    NewestAfterItem(h, s, time);
  }

  lemma FollowsOn(first: Input<NetInfo>, front: seq<Input<NetInfo>>, last: Input<NetInfo>)
    requires Follows(first, front) && last.Item?
    ensures Follows(first, front + [last])
  {
    Assoc([first], front, [last]);
    HistoryGoesOn(RULES, [first] + front, last);
    NetworksGoOn(Networks(first.value.table), front, last);
    var h, m := HistoryOf(RULES, [first] + front), NetworksOf(Networks(first.value.table), front);
    StandsOn(h, m, last.value, last.reported);
  }

  lemma FirstHistory(first: Input<NetInfo>)
    requires first.Item?
    ensures HistoryOf(RULES, [first]) == [Entry(first.value, first.reported)]
  {
    assert [first][..0] == [];
  }

  lemma NetworksGoOn(m: map<nat, int>, inputs: seq<Input<NetInfo>>, last: Input<NetInfo>)
    ensures NetworksOf(m, inputs + [last]) == NetworksAfter(NetworksOf(m, inputs), last.value)
  {
    Snoc(inputs, last);
  }

  // ---------- The first item ----------

  /** The table of an item as it is constructed, with its own handle and an initial type
      in the first slot. */
  function OwnTable(h: nat, ty: int): seq<Slot> {
    [Slot(h, ty)] + seq(MAX_NETWORK_HANDLES - 1, _ => FREE)
  }

  lemma OwnTableIs(h: nat, ty: int)
    ensures WellFormed(OwnTable(h, ty))
    ensures Networks(OwnTable(h, ty)) == if h == UNKNOWN then map[] else map[h := ty]
  {
    var t := OwnTable(h, ty);
    if h == UNKNOWN {
      UsedIs(t, 0);
    } else {
      UsedIs(t, 1);
      assert AsMap(t, 1) == AsMap(t, 0)[h := ty] == map[h := ty];
    }
  }

  /** When the first item's own table is what the item says: it has no handle, or is
      connected and was constructed with its own type for the slot. */
  predicate FirstFits(s: NetInfo, initialType: int) {
    s.handle == UNKNOWN || (s.connected && initialType == s.networkType)
  }

  lemma FirstItemIs(s: NetInfo, initialType: int)
    requires s.table == OwnTable(s.handle, initialType)
    ensures WellFormed(s.table)
    ensures Networks(s.table) == NetworksAfter(map[], s) <==> FirstFits(s, initialType)
  {
    OwnTableIs(s.handle, initialType);
    if s.handle != UNKNOWN {
      assert s.handle in Networks(s.table) && Networks(s.table)[s.handle] == initialType;
    }
  }

  ghost predicate StandsFor(first: Input<NetInfo>, inputs: seq<Input<NetInfo>>) {
    var h := HistoryOf(RULES, [first] + inputs);
    h != [] && Networks(h[|h|-1].value.table) == NetworksOf(map[], [first] + inputs)
  }

  lemma {:induction false} FoldFrom(first: Input<NetInfo>, inputs: seq<Input<NetInfo>>)
    ensures NetworksOf(map[], [first] + inputs) == NetworksOf(NetworksAfter(map[], first.value), inputs)
  {
    if inputs == [] {
      Unit([first]);
      NetworksGoOn(map[], [], first);
    } else {
      ConsSnoc(first, inputs);
      FoldFrom(first, inputs[..|inputs|-1]);
    }
  }

  /** The table stands for the bounded map of the whole stream, over every connect and
      disconnect sequence after the first item, if and only if the first item fits. */
  lemma NewestTableIsNetworks(first: Input<NetInfo>, initialType: int)
    requires first.Item? && first.value.table == OwnTable(first.value.handle, initialType)
    ensures (forall inputs :: Items(inputs) ==> StandsFor(first, inputs)) <==> FirstFits(first.value, initialType)
  {
    FirstItemIs(first.value, initialType);
    forall inputs | Items(inputs) && FirstFits(first.value, initialType) ensures StandsFor(first, inputs) {
      NewestTableFollows(first, inputs);
      FoldFrom(first, inputs);
    }
    NewestTableFollows(first, []);
    FoldFrom(first, []);
    assert NetworksOf(Networks(first.value.table), []) == Networks(first.value.table);
    assert StandsFor(first, []) <==> FirstFits(first.value, initialType);
    assert Items([]);
  }

  /** A stream that starts with a disconnection: its network is listed as connected. */
  lemma FirstDisconnectionIsListed(down: Input<NetInfo>, initialType: int)
    requires down.Item? && !down.value.connected && down.value.handle != UNKNOWN
    requires down.value.table == OwnTable(down.value.handle, initialType)
    ensures var h := HistoryOf(RULES, [down]);
      h != [] && Networks(h[|h|-1].value.table) == map[down.value.handle := initialType]
    ensures NetworksOf(map[], [down]) == map[]
  {
    OwnTableIs(down.value.handle, initialType);
    NewestTableFollows(down, []);
    Unit([down]);
    NetworksGoOn(map[], [], down);
  }

  /** A stream of a connection and its disconnection whose slot has another type than the
      item itself, as with the platform's raw types: the network stays listed. */
  lemma RawTypeStaysListed(up: Input<NetInfo>, down: Input<NetInfo>, initialType: int)
    requires up.Item? && up.value.connected && up.value.handle != UNKNOWN && up.value.networkType != initialType
    requires up.value.table == OwnTable(up.value.handle, initialType)
    requires down.Item? && down.value == up.value.(connected := false)
    ensures Follows(up, [down])
    ensures NetworksOf(Networks(up.value.table), [down]) == map[up.value.handle := initialType]
    ensures up.value.allTypes != {} ==> NetworksOf(map[], [up] + [down]) == map[]
  {
    OwnTableIs(up.value.handle, initialType);
    NewestTableFollows(up, [down]);
    FoldOfTwo(Networks(up.value.table), up, down);
  }

  lemma FoldOfTwo(m: map<nat, int>, up: Input<NetInfo>, down: Input<NetInfo>)
    ensures NetworksOf(m, [down]) == NetworksAfter(m, down.value)
    ensures NetworksOf(map[], [up] + [down]) == NetworksAfter(NetworksAfter(map[], up.value), down.value)
  {
    NetworksGoOn(m, [], down);
    NetworksGoOn(map[], [], up);
    NetworksGoOn(map[], [up], down);
    Unit([down]);
    Unit([up]);
  }

  lemma NewestAfterItem(before: seq<Entry<NetInfo>>, s: NetInfo, time: int)
    requires before != []
    ensures var after := LastItems(Offer(RULES, before, s, time).0);
      after != [] && after[|after|-1].value.table == Collate(s, before[|before|-1].value).table
  {
  }
}
