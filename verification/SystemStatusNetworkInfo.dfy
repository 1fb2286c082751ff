/** The network-info item object: collate rewrites its own handle array, type mask and
    APN in place from the newest recorded item. */
module SystemStatusNetworkInfo {
  import opened ReportHistory
  import opened NetworkTable
  import opened NetworkCaches

  class NetworkInfoItem {
    var mAllTypes: Mask
    var mType: int
    var mTypeName: string
    var mSubTypeName: string
    var mAvailable: bool
    var mConnected: bool
    var mRoaming: bool
    const mAllNetworkHandles: array<Slot>
    var mNetworkHandle: nat
    var mApn: string

    ghost predicate Valid() {
      mAllNetworkHandles.Length == MAX_NETWORK_HANDLES
    }

    function Value(): NetInfo
      reads this, mAllNetworkHandles
    {
      NetInfo(mAllTypes, mType, mTypeName, mSubTypeName, mAvailable, mConnected, mRoaming,
              mAllNetworkHandles[..], mNetworkHandle, mApn)
    }

    constructor (v: NetInfo)
      requires |v.table| == MAX_NETWORK_HANDLES
      ensures Valid() && fresh(mAllNetworkHandles) && Value() == v
    {
      mAllTypes, mType, mTypeName, mSubTypeName := v.allTypes, v.networkType, v.typeName, v.subTypeName;
      mAvailable, mConnected, mRoaming, mNetworkHandle, mApn := v.available, v.connected, v.roaming, v.handle, v.apn;
      var table := new Slot[MAX_NETWORK_HANDLES](i requires 0 <= i < MAX_NETWORK_HANDLES => v.table[i]);
      mAllNetworkHandles := table;
      new;
      assert mAllNetworkHandles[..] == v.table;
    }

    method AddHandle()
      requires Valid()
      modifies mAllNetworkHandles
      ensures mAllNetworkHandles[..] == Connect(old(mAllNetworkHandles[..]), mNetworkHandle, mType)
    {
      var t := mAllNetworkHandles;
      ghost var was := t[..];
      for i := 0 to MAX_NETWORK_HANDLES
        invariant t[..] == was && !HasHandle(was, i, mNetworkHandle)
        invariant forall j :: 0 <= j < i ==> was[j].handle != UNKNOWN
      {
        if mNetworkHandle == t[i].handle {
          ListedAt(was, i);
          return;
        }
        if t[i].handle == UNKNOWN {
          UsedIs(was, i);
          t[i] := Slot(mNetworkHandle, mType);
          return;
        }
      }
      UsedIs(was, MAX_NETWORK_HANDLES);
    }

    /** Swaps the last used slot into the place of this item's own, if it has one; the
        result counts the other connections of its type. */
    method DropHandle() returns (typeCount: nat)
      requires Valid()
      modifies mAllNetworkHandles
      ensures mAllNetworkHandles[..] == Disconnect(old(mAllNetworkHandles[..]), mNetworkHandle, mType)
      ensures var was := old(mAllNetworkHandles[..]);
        typeCount == OthersOfType(was, Used(was), mNetworkHandle, mType)
    {
      var t := mAllNetworkHandles;
      ghost var was, own := t[..], Slot(mNetworkHandle, mType);
      var deletedIndex, lastValidIndex := MAX_NETWORK_HANDLES, 0;
      typeCount := 0;
      while lastValidIndex < MAX_NETWORK_HANDLES && t[lastValidIndex].handle != UNKNOWN
        invariant lastValidIndex <= MAX_NETWORK_HANDLES
        invariant forall j :: 0 <= j < lastValidIndex ==> was[j].handle != UNKNOWN
        invariant typeCount == OthersOfType(was, lastValidIndex, mNetworkHandle, mType)
        invariant var p := PlaceOf(was, lastValidIndex, own);
          deletedIndex == if p == lastValidIndex then MAX_NETWORK_HANDLES else p
      {
        if mType == t[lastValidIndex].networkType {
          if mNetworkHandle == t[lastValidIndex].handle {
            deletedIndex := lastValidIndex;
          } else {
            typeCount := typeCount + 1;
          }
        }
        lastValidIndex := lastValidIndex + 1;
      }
      UsedIs(was, lastValidIndex);
      if lastValidIndex > 0 {
        lastValidIndex := lastValidIndex - 1;
      }
      if deletedIndex != MAX_NETWORK_HANDLES {
        t[deletedIndex] := t[lastValidIndex];
        t[lastValidIndex] := FREE;
      }
    }

    method CopyTable(table: array<Slot>)
      requires Valid() && table.Length == MAX_NETWORK_HANDLES && table != mAllNetworkHandles
      modifies mAllNetworkHandles
      ensures mAllNetworkHandles[..] == table[..]
    {
      forall i | 0 <= i < MAX_NETWORK_HANDLES {
        mAllNetworkHandles[i] := table[i];
      }
    }

    /** Replaces the own table by the recorded one, and the APN of other than mobile
        connections by a recorded APN that is not empty. */
    method TakeOver(cur: NetworkInfoItem)
      requires Valid() && cur.Valid() && cur.mAllNetworkHandles != mAllNetworkHandles
      modifies this`mApn, mAllNetworkHandles
      ensures mAllNetworkHandles[..] == old(cur.mAllNetworkHandles[..])
      ensures mApn == if mType != TYPE_MOBILE && old(cur.mApn) != "" then old(cur.mApn) else old(mApn)
    {
      CopyTable(cur.mAllNetworkHandles);
      if mType != TYPE_MOBILE && cur.mApn != "" {
        mApn := cur.mApn;
      }
    }

    method Collate(cur: NetworkInfoItem)
      requires Valid() && cur.Valid() && cur != this && cur.mAllNetworkHandles != mAllNetworkHandles
      modifies this`mAllTypes, this`mApn, mAllNetworkHandles
      ensures Value() == NetworkTable.Collate(old(Value()), old(cur.Value()))
    {
      var allTypes := cur.mAllTypes;
      TakeOver(cur);
      if mConnected {
        mAllTypes := mAllTypes + allTypes;
        AddHandle();
      } else if mAllTypes != {} {
        LoseConnection(allTypes);
      }
    }

    method LoseConnection(allTypes: Mask)
      requires Valid()
      modifies this`mAllTypes, mAllNetworkHandles
      ensures mAllNetworkHandles[..] == Disconnect(old(mAllNetworkHandles[..]), mNetworkHandle, mType)
      ensures var was := old(mAllNetworkHandles[..]);
        mAllTypes == if OthersOfType(was, Used(was), mNetworkHandle, mType) == 0
                     then allTypes - old(mAllTypes) else old(mAllTypes)
    {
      var typeCount := DropHandle();
      if typeCount == 0 {
        mAllTypes := allTypes - mAllTypes;
      }
    }

    method IsSameButApn(d: NetworkInfoItem) returns (same: bool)
      requires Valid() && d.Valid()
      ensures same == SameButApn(Value(), d.Value())
    {
      same := mAllTypes == d.mAllTypes && NormalizedType(mType) == NormalizedType(d.mType) && mTypeName == d.mTypeName
        && mSubTypeName == d.mSubTypeName && mAvailable == d.mAvailable && mConnected == d.mConnected
        && mRoaming == d.mRoaming && mAllNetworkHandles[..] == d.mAllNetworkHandles[..]
        && mNetworkHandle == d.mNetworkHandle && mApn != d.mApn;
    }

    /** Takes over another item field by field, unless it is the same but for the APN. */
    method CopyFrom(d: NetworkInfoItem)
      requires Valid() && d.Valid() && d != this && d.mAllNetworkHandles != mAllNetworkHandles
      modifies this, mAllNetworkHandles
      ensures Value() == Copied(old(Value()), old(d.Value()))
    {
      var same := IsSameButApn(d);
      if same {
        return;
      }
      var ty := NormalizedType(d.mType);
      mAllTypes := if d.mAllTypes == {} then TypeMask(ty) else d.mAllTypes;
      if NormalizedType(mType) != ty {
        mType := RawType(ty);
      }
      mTypeName, mSubTypeName, mApn := d.mTypeName, d.mSubTypeName, d.mApn;
      mAvailable, mConnected, mRoaming := d.mAvailable, d.mConnected, d.mRoaming;
      CopyTable(d.mAllNetworkHandles);
      mNetworkHandle := d.mNetworkHandle;
    }

    method EqualsPeer(peer: NetworkInfoItem) returns (rtv: bool)
      requires Valid() && peer.Valid()
      ensures rtv <==> Equals(Value(), peer.Value())
    {
      rtv := mAllTypes == peer.mAllTypes && mConnected == peer.mConnected;
      var i := 0;
      while rtv && i < MAX_NETWORK_HANDLES
        invariant 0 <= i <= MAX_NETWORK_HANDLES
        invariant rtv ==> mAllTypes == peer.mAllTypes && mConnected == peer.mConnected
        invariant rtv ==> mAllNetworkHandles[..i] == peer.mAllNetworkHandles[..i]
        invariant !rtv ==> !Equals(Value(), peer.Value())
      {
        rtv := mAllNetworkHandles[i] == peer.mAllNetworkHandles[i];
        if !rtv {
          assert Value().table[i] != peer.Value().table[i];
        }
        i := i + 1;
      }
      assert rtv ==> mAllNetworkHandles[..i] == mAllNetworkHandles[..];
      assert rtv ==> peer.mAllNetworkHandles[..i] == peer.mAllNetworkHandles[..];
      rtv := rtv && peer.mApn == mApn;
    }
  }

  /** A handle met before any free slot is among the used ones. */
  lemma ListedAt(t: seq<Slot>, i: nat)
    requires i < |t| && forall j :: 0 <= j < i ==> t[j].handle != UNKNOWN
    ensures t[i].handle == UNKNOWN || HasHandle(t, Used(t), t[i].handle)
  {
    if t[i].handle != UNKNOWN {
      BeforeFree(t, 0);
      HasHandleIs(t, Used(t), t[i].handle);
    }
  }
}
