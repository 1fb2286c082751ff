/** Many senders and one receiver: whatever the order in which the network interleaves
    the senders' datagrams, every message is delivered as it was sent. */
module IpcDelivery {
  import opened Numbers
  import opened Options
  import opened IpcFraming
  import opened Sequences

  /** A sending socket, known by its 16-byte id, how much it puts into one datagram, and
      the messages that it sends. */
  datatype Sender = Sender(id: bytes, max: nat, messages: seq<bytes>)

  /** Long messages have to be carried by the fragment format; short ones must not be
      empty, say abort or look like a fragment. */
  ghost predicate Sendable(m: bytes, max: nat) {
    Carried(m, max) || (0 < |m| <= max && !SaysAbort(m) && !LooksLikeFragment(m))
  }

  lemma SendableIsPlain(m: bytes, max: nat)
    requires Sendable(m, max) && |m| <= max
    ensures m != [] && Classify(m) == Plain
  {
    AbortExactly(m);
    FragmentExactly(m);
  }

  ghost predicate WellSet(s: Sender) {
    |s.id| == 16 && s.max > 0 && forall m :: m in s.messages ==> Sendable(m, s.max)
  }

  ghost predicate Honest(senders: seq<Sender>) {
    && (forall k :: 0 <= k < |senders| ==> WellSet(senders[k]))
    && (forall j, k :: 0 <= j < k < |senders| ==> senders[j].id != senders[k].id)
  }

  /** What each sender puts on the wire, on its own. */
  function Parts(senders: seq<Sender>): (p: seq<seq<bytes>>)
    requires forall k :: 0 <= k < |senders| ==> WellSet(senders[k])
    ensures |p| == |senders|
  {
    seq(|senders|, k requires 0 <= k < |senders| && WellSet(senders[k]) =>
      AllDatagrams(senders[k].id, senders[k].messages, senders[k].max))
  }

  /** wire merges the parts, each in its own order. */
  ghost predicate Interleaves(wire: seq<bytes>, parts: seq<seq<bytes>>)
    decreases |wire|
  {
    if wire == [] then forall k :: 0 <= k < |parts| ==> parts[k] == []
    else exists k :: 0 <= k < |parts| && Comes(wire, parts, k) && Interleaves(wire[1..], Without(parts, k))
  }

  /** The next datagram is the next one of part k. */
  predicate Comes(wire: seq<bytes>, parts: seq<seq<bytes>>, k: nat)
    requires k < |parts|
  {
    wire != [] && parts[k] != [] && parts[k][0] == wire[0]
  }

  function Without(parts: seq<seq<bytes>>, k: nat): seq<seq<bytes>>
    requires k < |parts|
  {
    parts[k := if parts[k] == [] then [] else parts[k][1..]]
  }

  // ---------- Streams ----------

  lemma {:induction false} StreamJoins(a: seq<bytes>, b: seq<bytes>, key: bytes)
    ensures Stream(a + b, key) == Stream(a, key) + Stream(b, key)
  {
    if a == [] {
      assert a + b == b;
    } else {
      assert (a + b)[0] == a[0] && (a + b)[1..] == a[1..] + b;
      StreamJoins(a[1..], b, key);
    }
  }

  lemma {:induction false} NoStream(ds: seq<bytes>, key: bytes)
    requires forall i :: 0 <= i < |ds| ==> !Belongs(ds[i], key)
    ensures Stream(ds, key) == []
  {
    if ds != [] {
      NoStream(ds[1..], key);
    }
  }

  /** A header that only one part uses has that part's stream on the wire. */
  lemma {:induction false} StreamOfPart(wire: seq<bytes>, parts: seq<seq<bytes>>, key: bytes, k: nat)
    requires Interleaves(wire, parts) && k < |parts|
    requires forall j :: 0 <= j < |parts| && j != k ==> Stream(parts[j], key) == []
    ensures Stream(wire, key) == Stream(parts[k], key)
    decreases |wire|
  {
    if wire != [] {
      var j :| 0 <= j < |parts| && Comes(wire, parts, j) && Interleaves(wire[1..], Without(parts, j));
      StreamOfPart(wire[1..], Without(parts, j), key, k);
    }
  }

  // ---------- Headers ----------

  lemma HeaderTellsLength(id: bytes, len: nat)
    requires |id| == 16 && len < TWO32
    ensures ScanHex(Header(id, len)[HEAD - 9..], 0) == len
  {
    FirstLength(id, len, []);
    assert Header(id, len) + [] == Header(id, len);
  }

  /** A header tells both the sender and the length. */
  lemma HeadersDiffer(id: bytes, len: nat, id2: bytes, len2: nat)
    requires |id| == |id2| == 16 && len < TWO32 && len2 < TWO32
    ensures Header(id, len) == Header(id2, len2) <==> id == id2 && len == len2
  {
    if Header(id, len) == Header(id2, len2) {
      HeaderTellsLength(id, len);
      HeaderTellsLength(id2, len2);
    }
  }

  /** Of what one message becomes, either all fragments or none are in a header's stream. */
  lemma MessageStream(id: bytes, m: bytes, max: nat, id2: bytes, len: nat)
    requires |id| == |id2| == 16 && max > 0 && Sendable(m, max) && len < TWO32
    ensures Stream(Datagrams(id, m, max), Header(id2, len)) ==
              if id == id2 && |m| == len && len > max then Datagrams(id, m, max) else []
  {
    var ds := Datagrams(id, m, max);
    if |m| > max {
      HeadersDiffer(id, |m|, id2, len);
      if id == id2 && |m| == len {
        DatagramsBelong(id, m, max);
      } else {
        FragmentsPartition(Header(id, |m|), m, max, 0);
        NoStream(ds, Header(id2, len));
      }
    } else {
      SendableIsPlain(m, max);
      NoStream(ds, Header(id2, len));
    }
  }

  /** The messages of one length that go out in fragments. */
  function LongOf(ms: seq<bytes>, len: nat, max: nat): seq<bytes> {
    if ms == [] then []
    else
      var n := |ms| - 1;
      LongOf(ms[..n], len, max) + if |ms[n]| == len > max then [ms[n]] else []
  }

  lemma NextDatagrams(id: bytes, ms: seq<bytes>, m: bytes, max: nat)
    requires |id| == 16 && max > 0
    ensures AllDatagrams(id, ms + [m], max) == AllDatagrams(id, ms, max) + Datagrams(id, m, max)
  {
    assert (ms + [m])[..|ms|] == ms;
  }

  lemma {:induction false} SenderStream(id: bytes, ms: seq<bytes>, max: nat, id2: bytes, len: nat)
    requires |id| == |id2| == 16 && max > 0 && len < TWO32 && forall m :: m in ms ==> Sendable(m, max)
    ensures Stream(AllDatagrams(id, ms, max), Header(id2, len)) ==
              if id == id2 then AllDatagrams(id, LongOf(ms, len, max), max) else []
  {
    if ms != [] {
      var front, m := ms[..|ms|-1], ms[|ms|-1];
      assert m in ms && forall x :: x in front ==> x in ms;
      SenderStream(id, front, max, id2, len);
      MessageStream(id, m, max, id2, len);
      StreamJoins(AllDatagrams(id, front, max), Datagrams(id, m, max), Header(id2, len));
      if id == id2 && |m| == len > max {
        NextDatagrams(id, LongOf(front, len, max), m, max);
        assert LongOf(ms, len, max) == LongOf(front, len, max) + [m];
      } else {
        assert LongOf(ms, len, max) == LongOf(front, len, max) || id != id2;
      }
    }
  }

  lemma {:induction false} LongAreCarried(ms: seq<bytes>, len: nat, max: nat)
    requires forall m :: m in ms ==> Sendable(m, max)
    ensures forall m :: m in LongOf(ms, len, max) ==> Carried(m, max)
  {
    if ms != [] {
      assert ms[|ms|-1] in ms && forall x :: x in ms[..|ms|-1] ==> x in ms;
      LongAreCarried(ms[..|ms|-1], len, max);
    }
  }

  lemma WireStream(wire: seq<bytes>, senders: seq<Sender>, k: nat, len: nat)
    requires Honest(senders) && k < |senders| && len < TWO32 && Interleaves(wire, Parts(senders))
    ensures Stream(wire, Header(senders[k].id, len)) ==
              AllDatagrams(senders[k].id, LongOf(senders[k].messages, len, senders[k].max), senders[k].max)
  {
    var parts, id := Parts(senders), senders[k].id;
    forall j | 0 <= j < |parts|
      ensures Stream(parts[j], Header(id, len)) ==
                if j == k then AllDatagrams(id, LongOf(senders[k].messages, len, senders[k].max), senders[k].max)
                else []
    {
      SenderStream(senders[j].id, senders[j].messages, senders[j].max, id, len);
    }
    StreamOfPart(wire, parts, Header(id, len), k);
  }

  // ---------- Delivery ----------

  /** Every long message is delivered exactly once, byte for byte: under the header of a
      sender and a length come exactly that sender's messages of that length, in the order
      in which they were sent, and none of them leaves anything in the table. */
  lemma LongMessagesArrive(wire: seq<bytes>, senders: seq<Sender>, k: nat, len: nat)
    requires Honest(senders) && k < |senders| && len < TWO32 && Interleaves(wire, Parts(senders))
    ensures var r, key := ReceiveAll(Receiver(map[], []), wire), Header(senders[k].id, len);
      DeliveredUnder(r.log, Some(key)) == LongOf(senders[k].messages, len, senders[k].max) && key !in r.table
  {
    var key, long := Header(senders[k].id, len), LongOf(senders[k].messages, len, senders[k].max);
    WireStream(wire, senders, k, len);
    LanesAreIndependent(Receiver(map[], []), wire, key);
    LongAreCarried(senders[k].messages, len, senders[k].max);
    LaneTakesAll(senders[k].id, long, senders[k].max);
  }

  lemma MessageKey(id: bytes, m: bytes, max: nat, key: bytes)
    requires |id| == 16 && max > 0 && Sendable(m, max) && Stream(Datagrams(id, m, max), key) != []
    ensures |m| < TWO32 && key == Header(id, |m|)
  {
    if |m| <= max {
      SendableIsPlain(m, max);
      NoStream(Datagrams(id, m, max), key);
    } else if key != Header(id, |m|) {
      FragmentsPartition(Header(id, |m|), m, max, 0);
      NoStream(Datagrams(id, m, max), key);
    }
  }

  /** A header in use on the wire is that of some sender and message. */
  lemma {:induction false} HeaderIsKnown(id: bytes, ms: seq<bytes>, max: nat, key: bytes)
    requires |id| == 16 && max > 0 && Stream(AllDatagrams(id, ms, max), key) != []
    requires forall m :: m in ms ==> Sendable(m, max)
    ensures exists m :: m in ms && |m| < TWO32 && key == Header(id, |m|)
  {
    var front, m := ms[..|ms|-1], ms[|ms|-1];
    assert m in ms && forall x :: x in front ==> x in ms;
    StreamJoins(AllDatagrams(id, front, max), Datagrams(id, m, max), key);
    if Stream(AllDatagrams(id, front, max), key) != [] {
      HeaderIsKnown(id, front, max, key);
    } else {
      MessageKey(id, m, max, key);
    }
  }

  /** When all has arrived the table is empty: no message stays unfinished, and no
      fragment is taken for one of a message that was never sent. */
  lemma NothingIsLeft(wire: seq<bytes>, senders: seq<Sender>)
    requires Honest(senders) && Interleaves(wire, Parts(senders))
    ensures ReceiveAll(Receiver(map[], []), wire).table == map[]
  {
    var r, parts := ReceiveAll(Receiver(map[], []), wire), Parts(senders);
    forall key ensures key !in r.table {
      LanesAreIndependent(Receiver(map[], []), wire, key);
      if exists k :: 0 <= k < |parts| && Stream(parts[k], key) != [] {
        var k :| 0 <= k < |parts| && Stream(parts[k], key) != [];
        HeaderIsKnown(senders[k].id, senders[k].messages, senders[k].max, key);
        var m :| m in senders[k].messages && |m| < TWO32 && key == Header(senders[k].id, |m|);
        LongMessagesArrive(wire, senders, k, |m|);
      } else if parts != [] {
        StreamOfPart(wire, parts, key, 0);
      }
    }
  }

  // ---------- Short messages ----------

  predicate IsPlain(d: bytes) {
    d != [] && Classify(d) == Plain
  }

  function Plains(ds: seq<bytes>): seq<bytes> {
    if ds == [] then [] else (if IsPlain(ds[0]) then [ds[0]] else []) + Plains(ds[1..])
  }

  function PlainParts(parts: seq<seq<bytes>>): (p: seq<seq<bytes>>)
    ensures |p| == |parts|
  {
    seq(|parts|, k requires 0 <= k < |parts| => Plains(parts[k]))
  }

  function ShortOf(ms: seq<bytes>, max: nat): seq<bytes> {
    if ms == [] then []
    else ShortOf(ms[..|ms|-1], max) + if |ms[|ms|-1]| <= max then [ms[|ms|-1]] else []
  }

  lemma {:induction false} PlainsJoin(a: seq<bytes>, b: seq<bytes>)
    ensures Plains(a + b) == Plains(a) + Plains(b)
  {
    if a == [] {
      assert a + b == b;
    } else {
      assert (a + b)[0] == a[0] && (a + b)[1..] == a[1..] + b;
      PlainsJoin(a[1..], b);
    }
  }

  lemma {:induction false} NoPlains(ds: seq<bytes>)
    requires forall i :: 0 <= i < |ds| ==> !IsPlain(ds[i])
    ensures Plains(ds) == []
  {
    if ds != [] {
      NoPlains(ds[1..]);
    }
  }

  lemma {:induction false} SenderPlains(id: bytes, ms: seq<bytes>, max: nat)
    requires |id| == 16 && max > 0 && forall m :: m in ms ==> Sendable(m, max)
    ensures Plains(AllDatagrams(id, ms, max)) == ShortOf(ms, max)
  {
    if ms != [] {
      var front, m := ms[..|ms|-1], ms[|ms|-1];
      assert m in ms && forall x :: x in front ==> x in ms;
      SenderPlains(id, front, max);
      PlainsJoin(AllDatagrams(id, front, max), Datagrams(id, m, max));
      MessagePlains(id, m, max);
    }
  }

  lemma MessagePlains(id: bytes, m: bytes, max: nat)
    requires |id| == 16 && max > 0 && Sendable(m, max)
    ensures Plains(Datagrams(id, m, max)) == if |m| <= max then [m] else []
  {
    if |m| > max {
      DatagramsBelong(id, m, max);
      AllInStream(Datagrams(id, m, max), Header(id, |m|));
      NoPlains(Datagrams(id, m, max));
    } else {
      SendableIsPlain(m, max);
      Unit([m]);
    }
  }

  lemma {:induction false} AllInStream(ds: seq<bytes>, key: bytes)
    ensures |Stream(ds, key)| <= |ds|
    ensures Stream(ds, key) == ds ==> forall i :: 0 <= i < |ds| ==> Belongs(ds[i], key)
  {
    if ds != [] {
      AllInStream(ds[1..], key);
    }
  }

  lemma PlainComes(wire: seq<bytes>, parts: seq<seq<bytes>>, k: nat)
    requires k < |parts| && Comes(wire, parts, k) && IsPlain(wire[0])
    ensures Comes(Plains(wire), PlainParts(parts), k) && Plains(wire)[1..] == Plains(wire[1..])
    ensures PlainParts(Without(parts, k)) == Without(PlainParts(parts), k)
  {
    ConsJoin(wire[0], Plains(wire[1..]), []);
    ConsJoin(parts[k][0], Plains(parts[k][1..]), []);
    SameParts(PlainParts(Without(parts, k)), Without(PlainParts(parts), k));
  }

  lemma OtherComes(wire: seq<bytes>, parts: seq<seq<bytes>>, k: nat)
    requires k < |parts| && Comes(wire, parts, k) && !IsPlain(wire[0])
    ensures Plains(wire) == Plains(wire[1..]) && PlainParts(Without(parts, k)) == PlainParts(parts)
  {
    Unit(Plains(wire[1..]));
    Unit(Plains(parts[k][1..]));
    SameParts(PlainParts(Without(parts, k)), PlainParts(parts));
  }

  lemma SameParts(a: seq<seq<bytes>>, b: seq<seq<bytes>>)
    requires |a| == |b| && forall k :: 0 <= k < |a| ==> a[k] == b[k]
    ensures a == b
  {
  }

  lemma {:induction false} PlainsInterleave(wire: seq<bytes>, parts: seq<seq<bytes>>)
    requires Interleaves(wire, parts)
    ensures Interleaves(Plains(wire), PlainParts(parts))
    decreases |wire|
  {
    if wire != [] {
      var k :| 0 <= k < |parts| && Comes(wire, parts, k) && Interleaves(wire[1..], Without(parts, k));
      PlainsInterleave(wire[1..], Without(parts, k));
      if IsPlain(wire[0]) {
        PlainComes(wire, parts, k);
      } else {
        OtherComes(wire, parts, k);
      }
    }
  }

  lemma PlainIsDelivered(r: Receiver, d: bytes)
    ensures DeliveredUnder(Receive(r, d).log, None) ==
              DeliveredUnder(r.log, None) + if IsPlain(d) then [d] else []
  {
    ReceiveDelivers(r, d, None);
  }

  lemma {:induction false} PlainsAreDelivered(r: Receiver, wire: seq<bytes>)
    ensures DeliveredUnder(ReceiveAll(r, wire).log, None) == DeliveredUnder(r.log, None) + Plains(wire)
    decreases wire
  {
    if wire != [] {
      PlainIsDelivered(r, wire[0]);
      PlainsAreDelivered(Receive(r, wire[0]), wire[1..]);
    }
  }

  /** The short messages of each sender. */
  function ShortParts(senders: seq<Sender>): (p: seq<seq<bytes>>)
    ensures |p| == |senders|
  {
    seq(|senders|, k requires 0 <= k < |senders| => ShortOf(senders[k].messages, senders[k].max))
  }

  lemma PlainPartsAreShort(senders: seq<Sender>)
    requires Honest(senders)
    ensures PlainParts(Parts(senders)) == ShortParts(senders)
  {
    var parts := Parts(senders);
    forall k | 0 <= k < |senders| ensures PlainParts(parts)[k] == ShortParts(senders)[k] {
      SenderPlains(senders[k].id, senders[k].messages, senders[k].max);
    }
  }

  /** The short messages are delivered as they are, each exactly once, in an order that
      merges the orders in which the senders sent theirs. */
  lemma ShortMessagesArrive(wire: seq<bytes>, senders: seq<Sender>)
    requires Honest(senders) && Interleaves(wire, Parts(senders))
    ensures Interleaves(DeliveredUnder(ReceiveAll(Receiver(map[], []), wire).log, None), ShortParts(senders))
  {
    assert DeliveredUnder(ReceiveAll(Receiver(map[], []), wire).log, None) == Plains(wire) by {
      PlainsAreDelivered(Receiver(map[], []), wire);
    }
    assert Interleaves(Plains(wire), ShortParts(senders)) by {
      PlainsInterleave(wire, Parts(senders));
      PlainPartsAreShort(senders);
    }
  }
}
