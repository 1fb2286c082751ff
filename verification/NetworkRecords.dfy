/** What is recorded of a network item besides the table: the type mask, the APN, and
    whether it is recorded at all; and what copying an item leaves. */
module NetworkRecords {
  import opened Options
  import opened ReportHistory
  import opened NetworkTable
  import opened NetworkCaches

  // ---------- The type mask ----------

  /** Another network of the type is connected. */
  ghost predicate OtherOfType(networks: map<nat, int>, h: nat, ty: int) {
    exists g :: g in networks && g != h && networks[g] == ty
  }

  lemma {:induction false} OthersAre(t: seq<Slot>, n: nat, h: nat, ty: int)
    requires n <= |t|
    ensures OthersOfType(t, n, h, ty) > 0 <==> exists i :: 0 <= i < n && t[i].networkType == ty && t[i].handle != h
  {
    if n > 0 {
      OthersAre(t, n - 1, h, ty);
      assert t[n-1].networkType == ty && t[n-1].handle != h ==> OthersOfType(t, n, h, ty) > 0;
    }
  }

  lemma OthersAreListed(t: seq<Slot>, h: nat, ty: int)
    requires WellFormed(t)
    ensures OthersOfType(t, Used(t), h, ty) > 0 <==> OtherOfType(Networks(t), h, ty)
  {
    var n := Used(t);
    OthersAre(t, n, h, ty);
    AsMapIsExact(t, n);
    if OthersOfType(t, n, h, ty) > 0 {
      var i :| 0 <= i < n && t[i].networkType == ty && t[i].handle != h;
      assert t[i].handle in Networks(t);
    }
    if OtherOfType(Networks(t), h, ty) {
      var g :| g in Networks(t) && g != h && Networks(t)[g] == ty;
      AsMapHas(t, n, g);
      HasHandleIs(t, n, g);
    }
  }

  /** A connection adds its bits to the recorded ones and loses none. A disconnection takes
      its bits off the recorded ones if no other network of its type is connected;
      otherwise, or without bits, its own mask is recorded. */
  lemma TypesAreExact(s: NetInfo, cur: NetInfo)
    requires WellFormed(cur.table)
    ensures var types, others := Collate(s, cur).allTypes, OtherOfType(Networks(cur.table), s.handle, s.networkType);
      && (s.connected ==> forall bit :: bit in types <==> bit in cur.allTypes || bit in s.allTypes)
      && (!s.connected && s.allTypes != {} && !others ==>
            forall bit :: bit in types <==> bit in cur.allTypes && bit !in s.allTypes)
      && (!s.connected && (s.allTypes == {} || others) ==> types == s.allTypes)
  {
    OthersAreListed(cur.table, s.handle, s.networkType);
  }

  /** A recorded APN goes over to an item of another type than mobile; nothing else of the
      item changes besides mask and table. */
  lemma ApnIsExact(s: NetInfo, cur: NetInfo)
    ensures var r := Collate(s, cur);
      && r.apn == (if s.networkType == TYPE_MOBILE || cur.apn == "" then s.apn else cur.apn)
      && r.networkType == s.networkType && r.typeName == s.typeName && r.subTypeName == s.subTypeName
      && r.available == s.available && r.connected == s.connected && r.roaming == s.roaming && r.handle == s.handle
  {
  }

  /** At most ten networks are listed, and with ten no other one is. */
  lemma AtMostTen(t: seq<Slot>, h: nat, ty: int)
    requires WellFormed(t)
    ensures |Networks(t)| <= 10
    ensures |Networks(t)| == 10 ==> Networks(Connect(t, h, ty)) == Networks(t)
    ensures |Networks(t)| < 10 && h != UNKNOWN && h !in Networks(t) ==>
      Networks(Connect(t, h, ty)) == Networks(t)[h := ty]
  {
    AsMapIsExact(t, Used(t));
    ConnectRefines(t, h, ty);
  }

  // ---------- Whether it is recorded ----------

  /** An item is recorded as a change if and only if, merged, it differs from the newest
      entry in the mask, in being connected, in the table or in the APN. */
  lemma RecordedExactly(c: Caches, item: NetInfo, time: int)
    requires c.history != []
    ensures var merged, newest := Collate(item, Newest(c)), Newest(c);
      Offer(RULES, c.history, item, time).1 <==>
        || merged.allTypes != newest.allTypes || merged.connected != newest.connected
        || merged.table != newest.table || merged.apn != newest.apn
  {
  }

  lemma ConnectTwice(t: seq<Slot>, h: nat, ty: int)
    requires WellFormed(t)
    ensures Connect(Connect(t, h, ty), h, ty) == Connect(t, h, ty)
  {
    var n, u := Used(t), Connect(t, h, ty);
    BeforeFree(t, 0);
    if u != t {
      UsedIs(u, n + 1);
      assert u[n].handle == h;
    }
  }

  lemma DisconnectTwice(t: seq<Slot>, h: nat, ty: int)
    requires WellFormed(t)
    ensures Disconnect(Disconnect(t, h, ty), h, ty) == Disconnect(t, h, ty)
  {
    var u := Disconnect(t, h, ty);
    var n := Used(u);
    DisconnectRefines(t, h, ty);
    AsMapIsExact(u, n);
    assert forall k :: 0 <= k < n ==> u[k].handle in Networks(u) && Networks(u)[u[k].handle] == u[k].networkType;
    assert !(h in Networks(u) && Networks(u)[h] == ty);
  }

  lemma OthersStay(t: seq<Slot>, h: nat, ty: int)
    requires WellFormed(t)
    ensures OthersOfType(Disconnect(t, h, ty), Used(Disconnect(t, h, ty)), h, ty) > 0
       <==> OthersOfType(t, Used(t), h, ty) > 0
  {
    var before, after := Networks(t), Networks(Disconnect(t, h, ty));
    DisconnectRefines(t, h, ty);
    OthersAreListed(t, h, ty);
    OthersAreListed(Disconnect(t, h, ty), h, ty);
    forall g ensures g in after && g != h && after[g] == ty <==> g in before && g != h && before[g] == ty {
    }
  }

  lemma CollateTwice(s: NetInfo, cur: NetInfo)
    requires WellFormed(cur.table)
    ensures Collate(s, Collate(s, cur)) == Collate(s, cur)
  {
    if s.connected {
      ConnectTwice(cur.table, s.handle, s.networkType);
      assert s.allTypes + (s.allTypes + cur.allTypes) == s.allTypes + cur.allTypes;
    } else if s.allTypes != {} {
      DisconnectTwice(cur.table, s.handle, s.networkType);
      OthersStay(cur.table, s.handle, s.networkType);
      assert (cur.allTypes - s.allTypes) - s.allTypes == cur.allTypes - s.allTypes;
    }
  }

  /** The same item offered again, at any later time, is never recorded as a change. */
  lemma RepeatIsNotRecorded(log: seq<Entry<NetInfo>>, s: NetInfo, time: int, later: int)
    requires log != [] && WellFormed(log[|log|-1].value.table)
    ensures var after := Offer(RULES, log, s, time).0;
      after != [] && !Offer(RULES, after, s, later).1
  {
    CollateTwice(s, log[|log|-1].value);
  }

  // ---------- Copies ----------

  /** The types 0 to 8 are told apart by their raw values; every other raw value is
      unknown. */
  lemma RawTypesRoundTrip(ty: int)
    ensures NormalizedType(RawType(ty)) == if 0 <= ty <= 8 then ty else TYPE_UNKNOWN
    ensures RawType(NormalizedType(ty)) == if ty in {100, 101, 102, 201, 202, 203, 204, 205, 220} then ty else 300
  {
  }

  /** All fields of d but the APN are those of s. */
  ghost predicate SameButTheApn(s: NetInfo, d: NetInfo) {
    && s.(apn := d.apn, networkType := d.networkType) == d && s.apn != d.apn
    && NormalizedType(s.networkType) == NormalizedType(d.networkType)
  }

  /** The cached item takes over every field, its type by what it stands for and an empty
      mask as the bit of its type, unless only the APN is new. */
  lemma CopyIsExact(s: NetInfo, d: NetInfo)
    ensures SameButTheApn(s, d) ==> Copied(s, d) == s
    ensures !SameButTheApn(s, d) ==>
      var c, ty := Copied(s, d), NormalizedType(d.networkType);
      && c.(allTypes := d.allTypes, networkType := d.networkType) == d
      && (NormalizedType(s.networkType) == ty ==> c.networkType == s.networkType)
      && (NormalizedType(s.networkType) != ty ==> c.networkType == RawType(ty))
      && forall bit :: bit in c.allTypes <==>
           if d.allTypes == {} then bit == ty && 0 <= ty < TYPE_UNKNOWN else bit in d.allTypes
  {
    assert SameButTheApn(s, d) <==> SameButApn(s, d);
  }
}
