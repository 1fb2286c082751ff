/** The socket wrapper itself: the send loop over one reused buffer, and the receive
    path that updates the shared reassembly table in place. */
module LocIpc {
  import opened Numbers
  import opened Options
  import opened IpcFraming
  import opened Sequences

  /** The kernel's side of a socket: datagrams are taken whole or not at all, and after
      room of them every further one is refused. */
  class Network {
    var wire: seq<bytes>
    var room: nat

    method SendTo(buf: array<byte>, len: nat) returns (rtv: int)
      requires len <= buf.Length
      modifies this
      ensures old(room) == 0 ==> rtv == -1 && wire == old(wire) && room == 0
      ensures old(room) > 0 ==> rtv == len && wire == old(wire) + [buf[..len]] && room == old(room) - 1
    {
      if room == 0 {
        return -1;
      }
      wire, room := wire + [buf[..len]], room - 1;
      return len;
    }
  }

  class Sock {
    const mMaxTxSize: nat
    const id: bytes

    /** maxTxSize bytes go into one datagram, HEAD of them for the header. */
    constructor (maxTxSize: nat, id: bytes)
      requires maxTxSize > HEAD && |id| == 16
      ensures mMaxTxSize == maxTxSize - HEAD && this.id == id
    {
      mMaxTxSize, this.id := maxTxSize - HEAD, id;
    }

    /** A buffer for one datagram with the header in place. */
    method HeadedBuffer(head: bytes) returns (tempBuf: array<byte>)
      requires |head| == HEAD
      ensures fresh(tempBuf) && tempBuf.Length == HEAD + mMaxTxSize && tempBuf[..HEAD] == head
    {
      tempBuf := new byte[HEAD + mMaxTxSize];
      forall i | 0 <= i < HEAD {
        tempBuf[i] := head[i];
      }
    }

    method CopyChunk(tempBuf: array<byte>, message: array<byte>, offset: nat, thisLen: nat)
      requires tempBuf != message && mMaxTxSize > 0 && HEAD + mMaxTxSize <= tempBuf.Length
      requires offset < message.Length && thisLen == Min(message.Length - offset, mMaxTxSize)
      modifies tempBuf
      ensures tempBuf[..HEAD] == old(tempBuf[..HEAD])
      ensures tempBuf[..HEAD + thisLen] == FragmentAt(old(tempBuf[..HEAD]), message[..], mMaxTxSize, offset)
    {
      forall i | 0 <= i < thisLen {
        tempBuf[HEAD + i] := message[offset + i];
      }
    }

    /** One round of the send loop: the chunk is copied in after the header. If there is
        room the next fragment is out, and otherwise nothing is. */
    method SendChunk(tempBuf: array<byte>, message: array<byte>, offset: nat, thisLen: nat, net: Network)
      returns (rtv: int)
      requires tempBuf != message && mMaxTxSize > 0 && HEAD + mMaxTxSize <= tempBuf.Length
      requires offset < message.Length && thisLen == Min(message.Length - offset, mMaxTxSize)
      modifies tempBuf, net
      ensures tempBuf[..HEAD] == old(tempBuf[..HEAD])
      ensures |net.wire| + net.room == |old(net.wire)| + old(net.room)
      ensures old(net.room) == 0 ==> rtv == -1 && net.wire == old(net.wire)
      ensures old(net.room) > 0 ==> rtv == HEAD + thisLen
      ensures old(net.room) > 0 ==>
        net.wire + FragmentsFrom(tempBuf[..HEAD], message[..], mMaxTxSize, offset + thisLen) ==
        old(net.wire) + FragmentsFrom(tempBuf[..HEAD], message[..], mMaxTxSize, offset)
      ensures FragmentsFrom(tempBuf[..HEAD], message[..], mMaxTxSize, offset) != []
    {
      ghost var head, m := tempBuf[..HEAD], message[..];
      CopyChunk(tempBuf, message, offset, thisLen);
      FragmentsGoOn(head, m, mMaxTxSize, offset);
      assert Min(offset + mMaxTxSize, |m|) == offset + thisLen;
      OneLess(net.wire, FragmentAt(head, m, mMaxTxSize, offset),
              FragmentsFrom(head, m, mMaxTxSize, offset + thisLen));
      rtv := net.SendTo(tempBuf, HEAD + thisLen);
      assert tempBuf[..HEAD] == head && message[..] == m;
    }

    /** The first datagrams of the message, as many as the network has room for, go
        out; the result is the message length when that is all of them, and -1
        otherwise. */
    method SendTo(message: array<byte>, net: Network) returns (rtv: int)
      requires mMaxTxSize > 0 && |id| == 16 && message.Length < TWO32
      modifies net
      ensures var ds := Datagrams(id, message[..], mMaxTxSize);
        && net.wire == old(net.wire) + ds[..Min(|ds|, old(net.room))]
        && rtv == if |ds| <= old(net.room) then message.Length else -1
    {
      if message.Length <= mMaxTxSize {
        var whole := message[..];
        rtv := net.SendTo(message, message.Length);
        assert message[..message.Length] == whole && [whole][..1] == [whole];
      } else {
        rtv := SendFragments(message, net);
      }
    }

    method SendFragments(message: array<byte>, net: Network) returns (rtv: int)
      requires 0 < mMaxTxSize < message.Length < TWO32 && |id| == 16
      modifies net
      ensures var ds := Datagrams(id, message[..], mMaxTxSize);
        && net.wire == old(net.wire) + ds[..Min(|ds|, old(net.room))]
        && rtv == if |ds| <= old(net.room) then message.Length else -1
    {
      var len := message.Length;
      var head := Header(id, len);
      var tempBuf := HeadedBuffer(head);
      rtv := 1;
      var offset := 0;
      ghost var m, ds := message[..], FragmentsFrom(head, message[..], mMaxTxSize, 0);
      ghost var all := net.wire + ds;
      while offset < len && rtv > 0
        invariant message[..] == m && tempBuf[..HEAD] == head
        invariant |net.wire| + net.room == |old(net.wire)| + old(net.room)
        invariant rtv > 0 ==> offset <= len && net.wire + FragmentsFrom(head, m, mMaxTxSize, offset) == all
        invariant rtv <= 0 ==> net.room == 0 && net.wire < all
        decreases if rtv > 0 then 1 else 0, len - offset
      {
        var thisLen := Min(len - offset, mMaxTxSize);
        rtv := SendChunk(tempBuf, message, offset, thisLen, net);
        offset := offset + rtv - HEAD;
      }
      if rtv > 0 {
        FragmentsGoOn(head, m, mMaxTxSize, 0);
        Unit(net.wire);
      }
      SentPart(old(net.wire), ds, net.wire);
      rtv := if rtv > 0 then len else -1;
    }

    /** Takes one datagram; None stands for a receive that failed after its retries,
        which forgets all unfinished messages. The result is the byte count, -100 for
        the abort text and -1 for a failure. */
    method RecvFrom(received: Option<bytes>, shared: ReassemblyTable) returns (nBytes: int)
      modifies shared
      ensures received == None ==> nBytes == -1 && shared.Abs() == old(shared.Abs()).(table := map[])
      ensures received != None ==>
        && shared.Abs() == Receive(old(shared.Abs()), received.value)
        && nBytes == if SaysAbort(received.value) then -100 else |received.value|
      ensures received != None && SaysAbort(received.value) ==> shared.Abs() == old(shared.Abs())
      ensures received != None && received.value != [] && !SaysAbort(received.value)
              && !LooksLikeFragment(received.value) ==>
        shared.Abs() == old(shared.Abs()).(log := old(shared.log) + [Delivery(None, received.value)])
    {
      if received == None {
        shared.table := map[];
        return -1;
      }
      var msg := received.value;
      AbortExactly(msg);
      nBytes := |msg|;
      if nBytes > 0 {
        PlainExactly(shared.Abs(), msg);
        if |msg| >= |ABORT| && msg[..|ABORT|] == ABORT && (|msg| == |ABORT| || msg[|ABORT|] == 0) {
          nBytes := -100;
        } else if nBytes <= HEAD || msg[..16] != PREFIX || msg[32] != DOLLAR || msg[41] != DOLLAR {
          shared.OnReceive(None, msg);
        } else {
          shared.Gather(msg);
        }
      }
    }
  }

  /** The map from header to unfinished message that all sockets share, and a record of
      what the listeners have been given. */
  class ReassemblyTable {
    var table: map<bytes, Entry>
    ghost var log: seq<Delivery>

    constructor ()
      ensures Abs() == Receiver(map[], [])
    {
      table, log := map[], [];
    }

    ghost function Abs(): Receiver
      reads this
    {
      Receiver(table, log)
    }

    method OnReceive(from: Option<bytes>, message: bytes)
      modifies this`log
      ensures log == old(log) + [Delivery(from, message)]
    {
      log := log + [Delivery(from, message)];
    }

    method Gather(msg: bytes)
      requires Classify(msg) == Fragment
      modifies this
      ensures Abs() == Receive(old(Abs()), msg)
    {
      var key := msg[..HEAD];
      var payLoadSize := |msg| - HEAD;
      if key !in table {
        var totalSize := ScanHex(msg[HEAD - 9..], 0);
        table := table[key := Entry(Int32(totalSize - payLoadSize), Zeros(totalSize))];
        table := table[key := table[key].(buffer := Splice(table[key].buffer, 0, msg[HEAD..]))];
      } else {
        var e := table[key];
        e := e.(buffer := Splice(e.buffer, |e.buffer| - e.remaining, msg[HEAD..]));
        e := e.(remaining := Int32(e.remaining - payLoadSize));
        table := table[key := e];
        if e.remaining == 0 {
          OnReceive(Some(key), e.buffer);
          table := table - {key};
        }
      }
    }
  }

  lemma OneLess(wire: seq<bytes>, d: bytes, rest: seq<bytes>)
    ensures wire < wire + ([d] + rest) && (wire + [d]) + rest == wire + ([d] + rest)
  {
    Assoc(wire, [d], rest);
  }

  /** What has been sent of ds, by its length. */
  lemma SentPart(before: seq<bytes>, ds: seq<bytes>, wire: seq<bytes>)
    requires wire <= before + ds && |before| <= |wire|
    ensures wire == before + ds[..|wire| - |before|]
  {
  }
}
