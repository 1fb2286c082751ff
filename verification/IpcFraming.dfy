/** How a long IPC message travels: the header that tells its fragments apart from
    plain datagrams, the cutting into fragments, and the reassembly table on the
    receiving side, with what is promised of any arrival order. */
module IpcFraming {
  import opened Numbers
  import opened Options
  import opened Sequences

  type byte = x: int | 0 <= x < 256
  type bytes = seq<byte>

  const DOLLAR: byte := 0x24
  // "$MSG_CONCAT_HDR$"
  const PREFIX: bytes :=
    [0x24, 0x4D, 0x53, 0x47, 0x5F, 0x43, 0x4F, 0x4E, 0x43, 0x41, 0x54, 0x5F, 0x48, 0x44, 0x52, 0x24]
  // "LocIpc::Sock::ABORT"
  const ABORT: bytes :=
    [0x4C, 0x6F, 0x63, 0x49, 0x70, 0x63, 0x3A, 0x3A, 0x53, 0x6F, 0x63, 0x6B, 0x3A, 0x3A, 0x41, 0x42, 0x4F, 0x52, 0x54]
  const HEAD: nat := 42
  const TWO31: int := 0x8000_0000

  // ---------- The length field ----------

  function HexDigit(d: nat): byte
    requires d < 16
  {
    if d < 10 then 0x30 + d else 0x41 + d - 10
  }

  function HexValue(c: byte): Option<nat> {
    if 0x30 <= c <= 0x39 then Some(c - 0x30)
    else if 0x41 <= c <= 0x46 then Some(c - 0x41 + 10)
    else if 0x61 <= c <= 0x66 then Some(c - 0x61 + 10)
    else None
  }

  /** The lowest k hexadecimal digits of n, zero-padded, as %8.8X prints them for k = 8. */
  function PrintHex(n: nat, k: nat): (s: bytes)
    ensures |s| == k
  {
    if k == 0 then [] else PrintHex(n / 16, k - 1) + [HexDigit(n % 16)]
  }

  /** What %zx makes of a text that starts with digits: the digits up to the first
      other character. */
  function ScanHex(s: bytes, value: nat): nat {
    if s == [] || HexValue(s[0]) == None then value
    else ScanHex(s[1..], 16 * value + HexValue(s[0]).value)
  }

  function Pow16(k: nat): nat {
    if k == 0 then 1 else 16 * Pow16(k - 1)
  }

  lemma DigitRoundTrip(d: nat)
    requires d < 16
    ensures HexValue(HexDigit(d)) == Some(d)
  {
  }

  function Lower(c: byte): byte {
    if 0x41 <= c <= 0x46 then c + 0x20 else c
  }

  /** Digits are read in either case. */
  lemma {:induction false} CaseDoesNotMatter(s: bytes, t: bytes, value: nat)
    requires |s| == |t| && forall i :: 0 <= i < |s| ==> Lower(s[i]) == Lower(t[i])
    ensures ScanHex(s, value) == ScanHex(t, value)
  {
    if s != [] {
      assert Lower(s[0]) == Lower(t[0]);
      assert HexValue(s[0]) == HexValue(t[0]);
      if HexValue(s[0]).Some? {
        CaseDoesNotMatter(s[1..], t[1..], 16 * value + HexValue(s[0]).value);
      }
    }
  }

  lemma ShiftDigit(p: nat, value: nat, n: nat)
    ensures 16 * (p * value + n / 16) + n % 16 == (16 * p) * value + n
  {
    assert 16 * (p * value) == (16 * p) * value;
  }

  lemma {:induction false} ScanDigits(n: nat, k: nat, rest: bytes, value: nat)
    requires n < Pow16(k)
    ensures ScanHex(PrintHex(n, k) + rest, value) == ScanHex(rest, Pow16(k) * value + n)
  {
    if k == 0 {
      assert PrintHex(n, k) + rest == rest;
    } else {
      var p, tail := Pow16(k - 1), [HexDigit(n % 16)] + rest;
      assert PrintHex(n, k) + rest == PrintHex(n / 16, k - 1) + tail;
      ScanDigits(n / 16, k - 1, tail, value);
      DigitRoundTrip(n % 16);
      assert tail[1..] == rest;
      ShiftDigit(p, value, n);
    }
  }

  /** The length written into a header is read back unchanged, for every length
      that the 32-bit send interface can pass. */
  lemma LengthRoundTrip(len: nat, rest: bytes)
    requires len < TWO32 && rest != [] && rest[0] == DOLLAR
    ensures ScanHex(PrintHex(len, 8) + rest, 0) == len
  {
    assert Pow16(8) == TWO32 by {
      assert Pow16(4) == 0x1_0000;
      assert Pow16(6) == 0x100_0000;
    }
    ScanDigits(len, 8, rest, 0);
  }

  // ---------- Sending ----------

  /** The header of every fragment of a message: PREFIX, the sender's 16-byte id,
      and the message length, set off by dollar signs. */
  function Header(id: bytes, len: nat): (h: bytes)
    requires |id| == 16
    ensures |h| == HEAD && h[..16] == PREFIX && h[32] == DOLLAR && h[41] == DOLLAR
    ensures h[16..32] == id && h[HEAD - 9..] == PrintHex(len % TWO32, 8) + [DOLLAR]
  {
    PREFIX + id + [DOLLAR] + PrintHex(len % TWO32, 8) + [DOLLAR]
  }

  function Min(a: nat, b: nat): nat {
    if a <= b then a else b
  }

  /** The fragments still to be sent once off bytes of the message are out. */
  function FragmentsFrom(head: bytes, message: bytes, max: nat, off: nat): seq<bytes>
    requires max > 0
    decreases |message| - off
  {
    if off >= |message| then []
    else [head + message[off..Min(off + max, |message|)]] + FragmentsFrom(head, message, max, off + max)
  }

  /** What one send puts on the wire. */
  function Datagrams(id: bytes, message: bytes, max: nat): seq<bytes>
    requires |id| == 16 && max > 0
  {
    if |message| <= max then [message]
    else FragmentsFrom(Header(id, |message|), message, max, 0)
  }

  function Payloads(ds: seq<bytes>): bytes {
    if ds == [] then []
    else (if |ds[0]| > HEAD then ds[0][HEAD..] else []) + Payloads(ds[1..])
  }

  function FragmentAt(head: bytes, message: bytes, max: nat, off: nat): bytes
    requires max > 0 && off < |message|
  {
    head + message[off..Min(off + max, |message|)]
  }

  lemma FragmentsGoOn(head: bytes, message: bytes, max: nat, off: nat)
    requires max > 0 && off < |message|
    ensures FragmentsFrom(head, message, max, off) ==
              [FragmentAt(head, message, max, off)] +
              FragmentsFrom(head, message, max, Min(off + max, |message|))
    ensures FragmentsFrom(head, message, max, |message|) == []
  {
  }

  lemma {:induction false} ChunksConcatenate(head: bytes, message: bytes, max: nat, off: nat)
    requires max > 0 && |head| == HEAD && off <= |message|
    ensures Payloads(FragmentsFrom(head, message, max, off)) == message[off..]
    decreases |message| - off
  {
    if off < |message| {
      var end := Min(off + max, |message|);
      var first, rest := FragmentAt(head, message, max, off), FragmentsFrom(head, message, max, end);
      FragmentsGoOn(head, message, max, off);
      ChunksConcatenate(head, message, max, end);
      ConsJoin(first, rest, []);
      assert first[HEAD..] == message[off..end];
      assert message[off..end] + message[end..] == message[off..];
    }
  }

  lemma {:induction false} ChunksAreShort(head: bytes, message: bytes, max: nat, off: nat)
    requires max > 0 && |head| == HEAD && off <= |message|
    ensures forall d :: d in FragmentsFrom(head, message, max, off) ==> HEAD < |d| <= HEAD + max && d[..HEAD] == head
    decreases |message| - off
  {
    if off < |message| {
      FragmentsGoOn(head, message, max, off);
      ChunksAreShort(head, message, max, Min(off + max, |message|));
    }
  }

  lemma {:induction false} ChunksAreFew(head: bytes, message: bytes, max: nat, off: nat)
    requires max > 0 && off <= |message|
    ensures |message| - off <= |FragmentsFrom(head, message, max, off)| * max < |message| - off + max
    decreases |message| - off
  {
    if off < |message| {
      var n := |FragmentsFrom(head, message, max, Min(off + max, |message|))|;
      FragmentsGoOn(head, message, max, off);
      ChunksAreFew(head, message, max, Min(off + max, |message|));
      assert (n + 1) * max == n * max + max;
    }
  }

  /** The chunks concatenate to what was to be sent, none is empty or too long, and
      there are exactly ceil(remaining / max) of them. */
  lemma FragmentsPartition(head: bytes, message: bytes, max: nat, off: nat)
    requires max > 0 && |head| == HEAD && off <= |message|
    ensures var ds := FragmentsFrom(head, message, max, off);
      && Payloads(ds) == message[off..]
      && (forall i :: 0 <= i < |ds| ==> HEAD < |ds[i]| <= HEAD + max && ds[i][..HEAD] == head)
      && |message| - off <= |ds| * max < |message| - off + max
  {
    ChunksConcatenate(head, message, max, off);
    ChunksAreShort(head, message, max, off);
    ChunksAreFew(head, message, max, off);
  }

  /** A message too long for one datagram never goes out as a single fragment, so the
      receiver may skip the completion test on a first fragment. */
  lemma LongMessagesNeedTwo(id: bytes, message: bytes, max: nat)
    requires |id| == 16 && 0 < max < |message|
    ensures |Datagrams(id, message, max)| >= 2
    ensures Payloads(Datagrams(id, message, max)) == message
  {
    FragmentsPartition(Header(id, |message|), message, max, 0);
    var n := |Datagrams(id, message, max)|;
    assert n <= 1 ==> n * max <= max;
  }

  // ---------- Receiving ----------

  /** How a datagram is taken; the receive buffer is zero beyond it. */
  datatype Kind = AbortText | Plain | Fragment

  function Classify(d: bytes): Kind {
    if |d| >= |ABORT| && d[..|ABORT|] == ABORT && (|d| == |ABORT| || d[|ABORT|] == 0) then AbortText
    else if |d| <= HEAD || d[..16] != PREFIX || d[32] != DOLLAR || d[41] != DOLLAR then Plain
    else Fragment
  }

  /** The abort text with the zero that ends it. */
  predicate SaysAbort(d: bytes) {
    ABORT + [0] <= d + [0]
  }

  /** A fragment of anybody's: any 16 bytes for the sender, any 8 for the length, and a
      payload. */
  ghost predicate LooksLikeFragment(d: bytes) {
    exists x: bytes, t: bytes, p: bytes ::
      |x| == 16 && |t| == 8 && p != [] && d == PREFIX + x + [DOLLAR] + t + [DOLLAR] + p
  }

  lemma AbortExactly(d: bytes)
    ensures Classify(d) == AbortText <==> SaysAbort(d)
  {
    var z := d + [0];
    if SaysAbort(d) {
      assert forall i :: 0 <= i < |ABORT| ==> d[i] == z[i] == (ABORT + [0])[i];
      assert |d| > |ABORT| ==> d[|ABORT|] == z[|ABORT|] == (ABORT + [0])[|ABORT|];
      assert d[..|ABORT|] == ABORT;
    }
    if Classify(d) == AbortText {
      assert z[..|ABORT|] == d[..|ABORT|];
      assert z[..|ABORT| + 1] == ABORT + [0];
    }
  }

  lemma FragmentParts(x: bytes, t: bytes, p: bytes)
    requires |x| == 16 && |t| == 8
    ensures var d := PREFIX + x + [DOLLAR] + t + [DOLLAR] + p;
      |d| == HEAD + |p| && d[..16] == PREFIX && d[32] == DOLLAR && d[41] == DOLLAR
  {
  }

  lemma FragmentExactly(d: bytes)
    ensures Classify(d) == Fragment <==> LooksLikeFragment(d)
  {
    assert SaysAbort(d) ==> d[0] == (d + [0])[0] == (ABORT + [0])[0] != PREFIX[0];
    AbortExactly(d);
    if LooksLikeFragment(d) {
      var x: bytes, t: bytes, p: bytes :|
        |x| == 16 && |t| == 8 && p != [] && d == PREFIX + x + [DOLLAR] + t + [DOLLAR] + p;
      FragmentParts(x, t, p);
      assert d[0] == d[..16][0];
    }
    if Classify(d) == Fragment {
      var x, t, p := d[16..32], d[33..41], d[42..];
      assert d == PREFIX + x + [DOLLAR] + t + [DOLLAR] + p;
    }
  }

  /** An unfinished message: bytes still missing, kept as int32_t, and the buffer. */
  datatype Entry = Entry(remaining: int, buffer: bytes)

  function Int32(x: int): int {
    (x + TWO31) % TWO32 - TWO31
  }

  function Zeros(n: nat): (z: bytes)
    ensures |z| == n
  {
    seq(n, _ => 0)
  }

  /** memcpy of data into buffer at offset at; what falls outside is not modelled. */
  function Splice(buffer: bytes, at: int, data: bytes): (r: bytes)
    ensures |r| == |buffer|
  {
    seq(|buffer|, i requires 0 <= i < |buffer| => if at <= i < at + |data| then data[i - at] else buffer[i])
  }

  function OpenEntry(d: bytes): Entry
    requires |d| > HEAD
  {
    var total := ScanHex(d[HEAD - 9..], 0);
    Entry(Int32(total - (|d| - HEAD)), Splice(Zeros(total), 0, d[HEAD..]))
  }

  function FillEntry(e: Entry, d: bytes): Entry
    requires |d| > HEAD
  {
    Entry(Int32(e.remaining - (|d| - HEAD)), Splice(e.buffer, |e.buffer| - e.remaining, d[HEAD..]))
  }

  /** One message handed to the listener, with the header it was gathered under. */
  datatype Delivery = Delivery(from: Option<bytes>, message: bytes)

  datatype Receiver = Receiver(table: map<bytes, Entry>, log: seq<Delivery>)

  /** A datagram is taken in; an empty one is not even looked at. */
  function Receive(r: Receiver, d: bytes): Receiver {
    match Classify(d)
    case AbortText => r
    case Plain => if d == [] then r else r.(log := r.log + [Delivery(None, d)])
    case Fragment =>
      var key := d[..HEAD];
      if key !in r.table then r.(table := r.table[key := OpenEntry(d)])
      else
        var e := FillEntry(r.table[key], d);
        if e.remaining == 0 then Receiver(r.table - {key}, r.log + [Delivery(Some(key), e.buffer)])
        else r.(table := r.table[key := e])
  }

  /** A datagram that is not empty is handed on as it is, and does nothing else, if and
      only if it neither says abort nor looks like a fragment; one that says abort does
      nothing at all. */
  lemma PlainExactly(r: Receiver, d: bytes)
    requires d != []
    ensures Receive(r, d) == r.(log := r.log + [Delivery(None, d)]) <==> !SaysAbort(d) && !LooksLikeFragment(d)
    ensures SaysAbort(d) ==> Receive(r, d) == r
  {
    AbortExactly(d);
    FragmentExactly(d);
    var after := Receive(r, d);
    assert |after.log| == |r.log| + 1 ==> after.log[|r.log|].from == None || Classify(d) == Fragment;
  }

  function ReceiveAll(r: Receiver, wire: seq<bytes>): Receiver
    decreases wire
  {
    if wire == [] then r else ReceiveAll(Receive(r, wire[0]), wire[1..])
  }

  // ---------- One header at a time ----------

  /** What concerns one header: its table entry and the messages delivered under it. */
  datatype Lane = Lane(entry: Option<Entry>, delivered: seq<bytes>)

  function LaneStep(l: Lane, d: bytes): Lane
    requires |d| > HEAD
  {
    if l.entry == None then l.(entry := Some(OpenEntry(d)))
    else
      var e := FillEntry(l.entry.value, d);
      if e.remaining == 0 then Lane(None, l.delivered + [e.buffer]) else l.(entry := Some(e))
  }

  function LaneRun(l: Lane, ds: seq<bytes>): Lane
    requires forall i :: 0 <= i < |ds| ==> |ds[i]| > HEAD
    decreases ds
  {
    if ds == [] then l else LaneRun(LaneStep(l, ds[0]), ds[1..])
  }

  predicate Belongs(d: bytes, key: bytes) {
    Classify(d) == Fragment && d[..HEAD] == key
  }

  /** The fragments with a given header, in order of arrival. */
  function Stream(wire: seq<bytes>, key: bytes): (ds: seq<bytes>)
    ensures forall i :: 0 <= i < |ds| ==> |ds[i]| > HEAD
  {
    if wire == [] then []
    else if Belongs(wire[0], key) then [wire[0]] + Stream(wire[1..], key)
    else Stream(wire[1..], key)
  }

  function DeliveredUnder(log: seq<Delivery>, from: Option<bytes>): seq<bytes> {
    if log == [] then []
    else
      var n := |log| - 1;
      DeliveredUnder(log[..n], from) + if log[n].from == from then [log[n].message] else []
  }

  function LaneOf(r: Receiver, key: bytes): Lane {
    Lane(if key in r.table then Some(r.table[key]) else None, DeliveredUnder(r.log, Some(key)))
  }

  lemma NextDelivery(log: seq<Delivery>, d: Delivery, from: Option<bytes>)
    ensures DeliveredUnder(log + [d], from) == DeliveredUnder(log, from) + if d.from == from then [d.message] else []
  {
    Snoc(log, d);
  }

  /** What one datagram adds to the deliveries. */
  function DeliveriesOf(r: Receiver, d: bytes): seq<Delivery> {
    match Classify(d)
    case AbortText => []
    case Plain => if d == [] then [] else [Delivery(None, d)]
    case Fragment =>
      var key := d[..HEAD];
      if key !in r.table then []
      else
        var e := FillEntry(r.table[key], d);
        if e.remaining == 0 then [Delivery(Some(key), e.buffer)] else []
  }

  lemma ReceiveDelivers(r: Receiver, d: bytes, from: Option<bytes>)
    ensures Receive(r, d).log == r.log + DeliveriesOf(r, d)
    ensures var ds := DeliveriesOf(r, d);
      DeliveredUnder(Receive(r, d).log, from) ==
        DeliveredUnder(r.log, from) + if ds != [] && ds[0].from == from then [ds[0].message] else []
  {
    var ds := DeliveriesOf(r, d);
    Unit(r.log);
    Unit(DeliveredUnder(r.log, from));
    if ds != [] {
      NextDelivery(r.log, ds[0], from);
    }
  }

  lemma ReceiveInLane(r: Receiver, d: bytes, key: bytes)
    ensures LaneOf(Receive(r, d), key) == if Belongs(d, key) then LaneStep(LaneOf(r, key), d) else LaneOf(r, key)
  {
    ReceiveDelivers(r, d, Some(key));
  }

  /** Lanes do not interfere: however fragments of many senders interleave, each header
      sees only its own stream. */
  lemma {:induction false} LanesAreIndependent(r: Receiver, wire: seq<bytes>, key: bytes)
    ensures LaneOf(ReceiveAll(r, wire), key) == LaneRun(LaneOf(r, key), Stream(wire, key))
    decreases wire
  {
    if wire != [] {
      ReceiveInLane(r, wire[0], key);
      LanesAreIndependent(Receive(r, wire[0]), wire[1..], key);
      if Belongs(wire[0], key) {
        assert Stream(wire, key)[1..] == Stream(wire[1..], key);
      }
    }
  }

  // ---------- Any fragments in a lane ----------

  function PayloadSize(ds: seq<bytes>): int {
    if ds == [] then 0 else PayloadSize(ds[..|ds|-1]) + |ds[|ds|-1]| - HEAD
  }

  /** The bytes still missing after a first fragment d and the further ones ds. */
  function Missing(d: bytes, ds: seq<bytes>): int
    requires |d| > HEAD
  {
    ScanHex(d[HEAD - 9..], 0) - (|d| - HEAD) - PayloadSize(ds)
  }

  /** The announced length is not used up, nor was it after any fragment before. */
  ghost predicate StaysOpen(d: bytes, ds: seq<bytes>)
    requires |d| > HEAD
  {
    ds != [] ==> Missing(d, ds) % TWO32 != 0 && StaysOpen(d, ds[..|ds|-1])
  }

  lemma Int32Again(x: int, y: int)
    ensures Int32(Int32(x) - y) == Int32(x - y)
    ensures Int32(x) == 0 <==> x % TWO32 == 0
  {
  }

  lemma LaneRunSnoc(l: Lane, ds: seq<bytes>, d: bytes)
    requires AllLong(ds) && |d| > HEAD
    ensures AllLong(ds + [d]) && LaneRun(l, ds + [d]) == LaneStep(LaneRun(l, ds), d)
  {
    LaneRunSplits(l, ds, [d]);
    assert [d][1..] == [];
  }

  lemma MissingSnoc(d: bytes, ds: seq<bytes>, last: bytes)
    requires |d| > HEAD
    ensures Missing(d, ds + [last]) == Missing(d, ds) - (|last| - HEAD)
  {
    Snoc(ds, last);
  }

  lemma CountStep(l: Lane, d: bytes, missing: int)
    requires |d| > HEAD && l.entry.Some? && l.entry.value.remaining == Int32(missing)
    ensures var after, size := LaneStep(l, d), |l.entry.value.buffer|;
      if (missing - (|d| - HEAD)) % TWO32 == 0 then
        && after.entry == None && |after.delivered| == |l.delivered| + 1
        && after.delivered[..|l.delivered|] == l.delivered && |after.delivered[|l.delivered|]| == size
      else
        && after.delivered == l.delivered && after.entry.Some?
        && after.entry.value.remaining == Int32(missing - (|d| - HEAD)) && |after.entry.value.buffer| == size
  {
    Int32Again(missing, |d| - HEAD);
    Int32Again(missing - (|d| - HEAD), 0);
  }

  /** Whatever a header's fragments are, the entry that the first one opens counts down
      the announced length, in 32 bits, and does nothing else while that is not zero; ... */
  lemma {:induction false} EntryCountsDown(d: bytes, ds: seq<bytes>, done: seq<bytes>)
    requires |d| > HEAD && AllLong(ds) && StaysOpen(d, ds)
    ensures var l := LaneRun(LaneStep(Lane(None, done), d), ds);
      && l.delivered == done && l.entry.Some? && l.entry.value.remaining == Int32(Missing(d, ds))
      && |l.entry.value.buffer| == ScanHex(d[HEAD - 9..], 0)
  {
    if ds != [] {
      var n := |ds| - 1;
      var front, last, first := ds[..n], ds[n], LaneStep(Lane(None, done), d);
      EntryCountsDown(d, front, done);
      assert front + [last] == ds;
      LaneRunSnoc(first, front, last);
      MissingSnoc(d, front, last);
      CountStep(LaneRun(first, front), last, Missing(d, front));
    }
  }

  /** ... and the fragment that makes it zero hands over a message of that length and
      closes the entry. */
  lemma EntryIsHandedOver(d: bytes, ds: seq<bytes>, last: bytes, done: seq<bytes>)
    requires |d| > HEAD && AllLong(ds) && StaysOpen(d, ds)
    requires |last| > HEAD && Missing(d, ds + [last]) % TWO32 == 0
    ensures AllLong(ds + [last])
    ensures var l := LaneRun(LaneStep(Lane(None, done), d), ds + [last]);
      && l.entry == None && |l.delivered| == |done| + 1 && l.delivered[..|done|] == done
      && |l.delivered[|done|]| == ScanHex(d[HEAD - 9..], 0)
  {
    var first := LaneStep(Lane(None, done), d);
    EntryCountsDown(d, ds, done);
    LaneRunSnoc(first, ds, last);
    MissingSnoc(d, ds, last);
    CountStep(LaneRun(first, ds), last, Missing(d, ds));
  }

  // ---------- One message in its lane ----------

  /** The messages that the fragment format carries: longer than one datagram, with a
      length that fits the header and a remainder that fits int32_t. */
  predicate Carried(m: bytes, max: nat) {
    0 < max < |m| < TWO32 && |m| - max < TWO31
  }

  /** The table entry of m once its first off bytes have arrived. */
  function EntryAt(m: bytes, off: nat): Entry
    requires off <= |m|
  {
    Entry(|m| - off, m[..off] + Zeros(|m| - off))
  }

  lemma HeadThen(head: bytes, payload: bytes)
    requires |head| == HEAD
    ensures var d := head + payload;
      && d[..16] == head[..16] && d[32] == head[32] && d[41] == head[41] && d[..HEAD] == head && d[HEAD..] == payload
      && d[HEAD - 9..] == head[HEAD - 9..] + payload
  {
  }

  lemma FragmentsAreSeen(id: bytes, len: nat, payload: bytes)
    requires |id| == 16 && len < TWO32 && payload != []
    ensures Belongs(Header(id, len) + payload, Header(id, len))
  {
    var d := Header(id, len) + payload;
    HeadThen(Header(id, len), payload);
    assert d[0] == d[..16][0] == PREFIX[0] != ABORT[0];
    assert |d| >= |ABORT| ==> d[..|ABORT|][0] == d[0];
  }

  lemma Int32Fits(x: nat)
    requires x < TWO32
    ensures Int32(x) == x <==> x < TWO31
  {
  }

  lemma SpliceAtStart(total: nat, payload: bytes)
    requires |payload| <= total
    ensures Splice(Zeros(total), 0, payload) == payload + Zeros(total - |payload|)
  {
  }

  lemma TextThen(head: bytes, text: bytes, payload: bytes)
    requires |head| == HEAD && head[HEAD - 9..] == text + [DOLLAR]
    ensures (head + payload)[HEAD..] == payload
    ensures (head + payload)[HEAD - 9..] == text + ([DOLLAR] + payload)
  {
    HeadThen(head, payload);
    Assoc(text, [DOLLAR], payload);
  }

  lemma FirstLength(id: bytes, len: nat, payload: bytes)
    requires |id| == 16 && len < TWO32
    ensures var d := Header(id, len) + payload;
      d[HEAD..] == payload && ScanHex(d[HEAD - 9..], 0) == len
  {
    TextThen(Header(id, len), PrintHex(len, 8), payload);
    LengthRoundTrip(len, [DOLLAR] + payload);
  }

  /** A first fragment opens the right entry exactly when the bytes that remain after
      it can be counted in an int32_t. */
  lemma FirstFragment(id: bytes, m: bytes, max: nat)
    requires |id| == 16 && 0 < max < |m| < TWO32
    ensures OpenEntry(Header(id, |m|) + m[..max]) == EntryAt(m, max) <==> |m| - max < TWO31
  {
    var d, payload := Header(id, |m|) + m[..max], m[..max];
    FirstLength(id, |m|, payload);
    SpliceAtStart(|m|, payload);
    Int32Fits(|m| - max);
    assert OpenEntry(d) == Entry(Int32(|m| - max), payload + Zeros(|m| - max));
  }

  lemma NextFragment(m: bytes, off: nat, end: nat, head: bytes)
    requires |head| == HEAD && 0 < off < end <= |m| && |m| - off < TWO31
    ensures FillEntry(EntryAt(m, off), head + m[off..end]) == EntryAt(m, end)
  {
    var e := FillEntry(EntryAt(m, off), head + m[off..end]);
    assert (head + m[off..end])[HEAD..] == m[off..end];
    assert e.buffer == EntryAt(m, end).buffer;
  }

  ghost predicate AllLong(ds: seq<bytes>) {
    forall i :: 0 <= i < |ds| ==> |ds[i]| > HEAD
  }

  lemma LaneRunCons(l: Lane, d: bytes, ds: seq<bytes>)
    requires |d| > HEAD && AllLong(ds)
    ensures AllLong([d] + ds) && LaneRun(l, [d] + ds) == LaneRun(LaneStep(l, d), ds)
  {
    ConsJoin(d, ds, []);
  }

  lemma FragmentsAreLong(head: bytes, m: bytes, max: nat, off: nat)
    requires max > 0 && |head| == HEAD && off <= |m|
    ensures AllLong(FragmentsFrom(head, m, max, off))
  {
    ChunksAreShort(head, m, max, off);
  }

  /** From the second fragment on: the entry stays until the last fragment, which
      delivers m and clears the entry. */
  lemma {:induction false} LaneFinishes(head: bytes, m: bytes, max: nat, off: nat, done: seq<bytes>, j: nat)
    requires |head| == HEAD && max > 0 && 0 < off < |m| && |m| - off < TWO31
    requires j <= |FragmentsFrom(head, m, max, off)| && AllLong(FragmentsFrom(head, m, max, off))
    ensures var ds := FragmentsFrom(head, m, max, off); var l := LaneRun(Lane(Some(EntryAt(m, off)), done), ds[..j]);
      if j == |ds| then l == Lane(None, done + [m]) else l.entry.Some? && l.delivered == done
    decreases |m| - off
  {
    var end := Min(off + max, |m|);
    var d, rest := FragmentAt(head, m, max, off), FragmentsFrom(head, m, max, end);
    FragmentsGoOn(head, m, max, off);
    if j > 0 {
      NextFragment(m, off, end, head);
      TakeCons(d, rest, j - 1);
      FragmentsAreLong(head, m, max, end);
      LaneRunCons(Lane(Some(EntryAt(m, off)), done), d, rest[..j-1]);
      if end == |m| {
        assert EntryAt(m, end).buffer == m;
      } else {
        LaneFinishes(head, m, max, end, done, j - 1);
      }
    }
  }

  /** A lane that starts empty and gets the first j fragments of m. */
  lemma LaneTakesMessage(id: bytes, m: bytes, max: nat, done: seq<bytes>, j: nat)
    requires |id| == 16 && Carried(m, max) && j <= |Datagrams(id, m, max)|
    ensures var ds := Datagrams(id, m, max);
      && AllLong(ds)
      && var l := LaneRun(Lane(None, done), ds[..j]);
         if j == |ds| then l == Lane(None, done + [m]) else l.delivered == done && (l.entry.Some? <==> j > 0)
  {
    var head := Header(id, |m|);
    var d, rest := FragmentAt(head, m, max, 0), FragmentsFrom(head, m, max, max);
    FragmentsGoOn(head, m, max, 0);
    FragmentsAreLong(head, m, max, 0);
    FragmentsAreLong(head, m, max, max);
    LongMessagesNeedTwo(id, m, max);
    if j > 0 {
      FirstFragment(id, m, max);
      TakeCons(d, rest, j - 1);
      LaneRunCons(Lane(None, done), d, rest[..j-1]);
      LaneFinishes(head, m, max, max, done, j - 1);
    }
  }

  // ---------- Any interleaving ----------

  function AllDatagrams(id: bytes, ms: seq<bytes>, max: nat): seq<bytes>
    requires |id| == 16 && max > 0
  {
    if ms == [] then [] else AllDatagrams(id, ms[..|ms|-1], max) + Datagrams(id, ms[|ms|-1], max)
  }

  lemma {:induction false} LaneRunSplits(l: Lane, a: seq<bytes>, b: seq<bytes>)
    requires forall i :: 0 <= i < |a| ==> |a[i]| > HEAD
    requires forall i :: 0 <= i < |b| ==> |b[i]| > HEAD
    ensures forall i :: 0 <= i < |a + b| ==> |(a + b)[i]| > HEAD
    ensures LaneRun(l, a + b) == LaneRun(LaneRun(l, a), b)
    decreases a
  {
    if a == [] {
      assert a + b == b;
    } else {
      assert (a + b)[0] == a[0] && (a + b)[1..] == a[1..] + b;
      LaneRunSplits(LaneStep(l, a[0]), a[1..], b);
    }
  }

  lemma LaneTakesNext(id: bytes, m: bytes, max: nat, log: seq<bytes>)
    requires |id| == 16 && Carried(m, max)
    ensures forall i :: 0 <= i < |Datagrams(id, m, max)| ==> |Datagrams(id, m, max)[i]| > HEAD
    ensures LaneRun(Lane(None, log), Datagrams(id, m, max)) == Lane(None, log + [m])
  {
    var all := Datagrams(id, m, max);
    LaneTakesMessage(id, m, max, log, |all|);
    assert all[..|all|] == all;
  }

  lemma {:induction false} LaneTakesAll(id: bytes, ms: seq<bytes>, max: nat)
    requires |id| == 16 && max > 0 && forall i :: 0 <= i < |ms| ==> Carried(ms[i], max)
    ensures forall i :: 0 <= i < |AllDatagrams(id, ms, max)| ==> |AllDatagrams(id, ms, max)[i]| > HEAD
    ensures LaneRun(Lane(None, []), AllDatagrams(id, ms, max)) == Lane(None, ms)
  {
    if ms != [] {
      var front, m := ms[..|ms|-1], ms[|ms|-1];
      LaneTakesAll(id, front, max);
      LaneTakesNext(id, m, max, front);
      LaneRunSplits(Lane(None, []), AllDatagrams(id, front, max), Datagrams(id, m, max));
      assert front + [m] == ms;
    }
  }

  /** Reassembly. Whatever else is on the wire, if the fragments that carry one header
      are those of the messages ms one after the other and then the first j of m, then
      exactly ms have been delivered under that header, byte for byte and in order, and
      the table has an entry for it exactly while m is unfinished. With j counting all
      fragments but the last, this also says that the last one delivers m. */
  lemma Reassembly(wire: seq<bytes>, id: bytes, ms: seq<bytes>, m: bytes, j: nat, max: nat)
    requires |id| == 16 && Carried(m, max) && j < |Datagrams(id, m, max)|
    requires forall i :: 0 <= i < |ms| ==> Carried(ms[i], max) && |ms[i]| == |m|
    requires Stream(wire, Header(id, |m|)) == AllDatagrams(id, ms, max) + Datagrams(id, m, max)[..j]
    ensures var r := ReceiveAll(Receiver(map[], []), wire);
      && DeliveredUnder(r.log, Some(Header(id, |m|))) == ms
      && (Header(id, |m|) in r.table <==> j > 0)
  {
    var key, empty := Header(id, |m|), Receiver(map[], []);
    LanesAreIndependent(empty, wire, key);
    LaneTakesAll(id, ms, max);
    LaneTakesMessage(id, m, max, ms, j);
    var part := Datagrams(id, m, max)[..j];
    LaneRunSplits(LaneOf(empty, key), AllDatagrams(id, ms, max), part);
  }

  /** What a sender cuts up does arrive in its own lane, so that the condition of
      Reassembly is about arrival order alone. */
  lemma DatagramsBelong(id: bytes, m: bytes, max: nat)
    requires |id| == 16 && Carried(m, max)
    ensures Stream(Datagrams(id, m, max), Header(id, |m|)) == Datagrams(id, m, max)
  {
    var ds := Datagrams(id, m, max);
    FragmentsPartition(Header(id, |m|), m, max, 0);
    forall i | 0 <= i < |ds| ensures Belongs(ds[i], Header(id, |m|)) {
      assert ds[i] == Header(id, |m|) + ds[i][HEAD..];
      FragmentsAreSeen(id, |m|, ds[i][HEAD..]);
    }
    StreamOfOwn(ds, Header(id, |m|));
  }

  lemma {:induction false} StreamOfOwn(ds: seq<bytes>, key: bytes)
    requires forall i :: 0 <= i < |ds| ==> Belongs(ds[i], key)
    ensures Stream(ds, key) == ds
  {
    if ds != [] {
      StreamOfOwn(ds[1..], key);
    }
  }

  /** A message that fits one datagram is delivered as it is, at once, exactly when it is
      not empty and neither says abort nor looks like a fragment. */
  lemma ShortMessages(r: Receiver, id: bytes, m: bytes, max: nat)
    requires |id| == 16 && 0 < max && |m| <= max
    ensures ReceiveAll(r, Datagrams(id, m, max)) == r.(log := r.log + [Delivery(None, m)])
         <==> m != [] && !SaysAbort(m) && !LooksLikeFragment(m)
  {
    assert [m][1..] == [];
    assert ReceiveAll(r, [m]) == Receive(r, m);
    if m != [] {
      PlainExactly(r, m);
    }
  }
}
