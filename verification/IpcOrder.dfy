/** The order of delivery: whatever the interleaving, the listener is given each sender's
    messages, long and short, in the order in which they were sent. */
module IpcOrder {
  import opened Numbers
  import opened Options
  import opened IpcFraming
  import opened IpcDelivery
  import opened Sequences

  /** A sender part of the way: of the first of the messages that are not delivered yet,
      off bytes are out. */
  datatype Progress = Progress(id: bytes, max: nat, off: nat, rest: seq<bytes>)

  ghost predicate Proper(p: Progress) {
    && |p.id| == 16 && p.max > 0 && (forall m :: m in p.rest ==> Sendable(m, p.max))
    && (p.off > 0 ==> p.rest != [] && p.max <= p.off < |p.rest[0]|)
  }

  /** Whether the next datagram is the last one of its message. */
  predicate Completes(p: Progress)
    requires p.rest != []
  {
    p.off + p.max >= |p.rest[0]|
  }

  function Next(p: Progress): (n: Progress)
    requires Proper(p) && p.rest != []
    ensures Proper(n)
  {
    if Completes(p) then p.(off := 0, rest := p.rest[1..]) else p.(off := p.off + p.max)
  }

  // ---------- What is still to come ----------

  /** The datagrams of some messages, from the first message on. */
  function Wire(id: bytes, ms: seq<bytes>, max: nat): seq<bytes>
    requires |id| == 16 && max > 0
  {
    if ms == [] then [] else Datagrams(id, ms[0], max) + Wire(id, ms[1..], max)
  }

  lemma {:induction false} FromTheFront(id: bytes, m: bytes, ms: seq<bytes>, max: nat)
    requires |id| == 16 && max > 0
    ensures AllDatagrams(id, [m] + ms, max) == Datagrams(id, m, max) + AllDatagrams(id, ms, max)
  {
    var first := Datagrams(id, m, max);
    if ms == [] {
      NextDatagrams(id, [], m, max);
      Unit([m]);
      Unit(first);
    } else {
      var front, last := ms[..|ms|-1], ms[|ms|-1];
      NextTake(ms, |ms| - 1);
      assert ms == front + [last];
      Assoc([m], front, [last]);
      NextDatagrams(id, [m] + front, last, max);
      FromTheFront(id, m, front, max);
      NextDatagrams(id, front, last, max);
      Assoc(first, AllDatagrams(id, front, max), Datagrams(id, last, max));
    }
  }

  lemma {:induction false} WireIsAll(id: bytes, ms: seq<bytes>, max: nat)
    requires |id| == 16 && max > 0
    ensures Wire(id, ms, max) == AllDatagrams(id, ms, max)
  {
    if ms != [] {
      WireIsAll(id, ms[1..], max);
      FromTheFront(id, ms[0], ms[1..], max);
      assert ms == [ms[0]] + ms[1..];
    }
  }

  function CurrentPending(p: Progress): seq<bytes>
    requires Proper(p) && p.rest != []
  {
    if p.off == 0 then Datagrams(p.id, p.rest[0], p.max)
    else FragmentsFrom(Header(p.id, |p.rest[0]|), p.rest[0], p.max, p.off)
  }

  function Pending(p: Progress): seq<bytes>
    requires Proper(p)
  {
    if p.rest == [] then [] else CurrentPending(p) + Wire(p.id, p.rest[1..], p.max)
  }

  function NextDatagram(p: Progress): bytes
    requires Proper(p) && p.rest != []
  {
    var m := p.rest[0];
    if |m| <= p.max then m else Header(p.id, |m|) + m[p.off..Min(p.off + p.max, |m|)]
  }

  lemma CurrentGoesOn(p: Progress)
    requires Proper(p) && p.rest != []
    ensures CurrentPending(p) == [NextDatagram(p)] + if Completes(p) then [] else CurrentPending(Next(p))
  {
    var m := p.rest[0];
    if |m| <= p.max {
      Unit([m]);
    } else {
      FragmentsGoOn(Header(p.id, |m|), m, p.max, p.off);
    }
  }

  lemma PendingGoesOn(p: Progress)
    requires Proper(p) && p.rest != []
    ensures Pending(p) == [NextDatagram(p)] + Pending(Next(p))
  {
    var d, later := NextDatagram(p), Wire(p.id, p.rest[1..], p.max);
    if Completes(p) {
      calc {
        Pending(p);
        CurrentPending(p) + later;
        { CurrentGoesOn(p); Unit([d]); }
        [d] + later;
        { AsWire(Next(p)); }
        [d] + Pending(Next(p));
      }
    } else {
      calc {
        Pending(p);
        CurrentPending(p) + later;
        { CurrentGoesOn(p); }
        ([d] + CurrentPending(Next(p))) + later;
        { ConsJoin(d, CurrentPending(Next(p)), later); }
        [d] + Pending(Next(p));
      }
    }
  }

  lemma AsWire(p: Progress)
    requires Proper(p) && p.off == 0
    ensures Pending(p) == Wire(p.id, p.rest, p.max)
  {
  }

  // ---------- The receiver's table ----------

  /** The entry of a message that is part of the way. */
  ghost predicate Holds(p: Progress, key: bytes) {
    Proper(p) && p.off > 0 && key == Header(p.id, |p.rest[0]|)
  }

  predicate EntryFits(table: map<bytes, Entry>, p: Progress)
    requires Proper(p)
  {
    p.off > 0 ==>
      var key := Header(p.id, |p.rest[0]|);
      key in table && table[key] == EntryAt(p.rest[0], p.off)
  }

  ghost predicate AllProper(ps: seq<Progress>) {
    && (forall k :: 0 <= k < |ps| ==> Proper(ps[k]))
    && (forall j, k :: 0 <= j < k < |ps| ==> ps[j].id != ps[k].id)
  }

  /** The table has exactly the entries of the messages that are part of the way. */
  ghost predicate Fits(table: map<bytes, Entry>, ps: seq<Progress>)
    requires AllProper(ps)
  {
    && (forall k :: 0 <= k < |ps| ==> EntryFits(table, ps[k]))
    && (forall key :: key in table ==> exists k :: 0 <= k < |ps| && Holds(ps[k], key))
  }

  function Messages(log: seq<Delivery>): seq<bytes> {
    if log == [] then [] else Messages(log[..|log|-1]) + [log[|log|-1].message]
  }

  /** Nobody else holds a header of this sender. */
  lemma OnlyHolder(ps: seq<Progress>, k: nat, len: nat, j: nat)
    requires AllProper(ps) && k < |ps| && j < |ps| && len < TWO32
    ensures Holds(ps[j], Header(ps[k].id, len)) ==> j == k
  {
    if ps[j].off > 0 {
      assert Sendable(ps[j].rest[0], ps[j].max);
      HeadersDiffer(ps[j].id, |ps[j].rest[0]|, ps[k].id, len);
    }
  }

  lemma OwnIsFree(table: map<bytes, Entry>, ps: seq<Progress>, k: nat)
    requires AllProper(ps) && Fits(table, ps) && k < |ps| && ps[k].rest != [] && ps[k].off == 0
    requires |ps[k].rest[0]| > ps[k].max
    ensures Header(ps[k].id, |ps[k].rest[0]|) !in table
  {
    assert Sendable(ps[k].rest[0], ps[k].max);
    forall j | 0 <= j < |ps| ensures !Holds(ps[j], Header(ps[k].id, |ps[k].rest[0]|)) {
      OnlyHolder(ps, k, |ps[k].rest[0]|, j);
    }
  }

  lemma NextMessage(log: seq<Delivery>, d: Delivery)
    ensures Messages(log + [d]) == Messages(log) + [d.message]
  {
    Snoc(log, d);
  }

  /** What the next datagram of a sender does to the table. */
  function TableAfter(table: map<bytes, Entry>, p: Progress): map<bytes, Entry>
    requires Proper(p) && p.rest != []
  {
    var m := p.rest[0];
    if |m| <= p.max then table
    else if Completes(p) then table - {Header(p.id, |m|)}
    else table[Header(p.id, |m|) := EntryAt(m, p.off + p.max)]
  }

  /** The next datagram of a sender is received: its message is delivered if that was the
      last of it, and its entry is as it should be. */
  lemma ReceiveNext(r: Receiver, p: Progress)
    requires Proper(p) && p.rest != [] && EntryFits(r.table, p)
    requires p.off == 0 && |p.rest[0]| > p.max ==> Header(p.id, |p.rest[0]|) !in r.table
    ensures var after := Receive(r, NextDatagram(p));
      && after.table == TableAfter(r.table, p)
      && Messages(after.log) == Messages(r.log) + if Completes(p) then [p.rest[0]] else []
  {
    var m := p.rest[0];
    if |m| > p.max {
      ReceiveFragment(r, p);
      Unit(Messages(r.log));
      NextMessage(r.log, Delivery(Some(Header(p.id, |m|)), m));
    } else {
      ReceiveShort(r, p);
      NextMessage(r.log, Delivery(None, m));
    }
  }

  lemma ReceiveShort(r: Receiver, p: Progress)
    requires Proper(p) && p.rest != [] && |p.rest[0]| <= p.max
    ensures Completes(p) && NextDatagram(p) == p.rest[0]
    ensures Receive(r, NextDatagram(p)) == r.(log := r.log + [Delivery(None, p.rest[0])])
  {
    SendableIsPlain(p.rest[0], p.max);
  }

  lemma ReceiveFragment(r: Receiver, p: Progress)
    requires Proper(p) && p.rest != [] && |p.rest[0]| > p.max && EntryFits(r.table, p)
    requires p.off == 0 ==> Header(p.id, |p.rest[0]|) !in r.table
    ensures var m, key := p.rest[0], Header(p.id, |p.rest[0]|);
      Receive(r, NextDatagram(p)) ==
        if Completes(p) then Receiver(r.table - {key}, r.log + [Delivery(Some(key), m)])
        else r.(table := r.table[key := EntryAt(m, p.off + p.max)])
  {
    var m, key, d := p.rest[0], Header(p.id, |p.rest[0]|), NextDatagram(p);
    var end := Min(p.off + p.max, |m|);
    assert Sendable(m, p.max);
    FragmentsAreSeen(p.id, |m|, m[p.off..end]);
    if p.off == 0 {
      FirstFragment(p.id, m, p.max);
    } else {
      NextFragment(m, p.off, end, key);
      assert end == |m| ==> EntryAt(m, end).buffer == m;
    }
  }

  lemma OthersStillFit(table: map<bytes, Entry>, ps: seq<Progress>, k: nat, j: nat)
    requires AllProper(ps) && k < |ps| && ps[k].rest != [] && j < |ps| && EntryFits(table, ps[j])
    ensures EntryFits(TableAfter(table, ps[k]), ps[k := Next(ps[k])][j])
  {
    if j != k && ps[j].off > 0 && |ps[k].rest[0]| > ps[k].max {
      assert Sendable(ps[k].rest[0], ps[k].max);
      OnlyHolder(ps, k, |ps[k].rest[0]|, j);
    }
  }

  lemma FitsAfter(table: map<bytes, Entry>, ps: seq<Progress>, k: nat)
    requires AllProper(ps) && k < |ps| && ps[k].rest != [] && Fits(table, ps)
    ensures AllProper(ps[k := Next(ps[k])]) && Fits(TableAfter(table, ps[k]), ps[k := Next(ps[k])])
  {
    var qs, after := ps[k := Next(ps[k])], TableAfter(table, ps[k]);
    forall j | 0 <= j < |qs| ensures EntryFits(after, qs[j]) {
      OthersStillFit(table, ps, k, j);
    }
    forall key | key in after ensures exists j :: 0 <= j < |qs| && Holds(qs[j], key) {
      HolderStays(table, ps, k, key);
    }
  }

  lemma StepFits(r: Receiver, ps: seq<Progress>, k: nat)
    requires AllProper(ps) && k < |ps| && ps[k].rest != [] && Fits(r.table, ps)
    ensures var after, qs := Receive(r, NextDatagram(ps[k])), ps[k := Next(ps[k])];
      && AllProper(qs) && Fits(after.table, qs)
      && Messages(after.log) == Messages(r.log) + if Completes(ps[k]) then [ps[k].rest[0]] else []
  {
    if ps[k].off == 0 && |ps[k].rest[0]| > ps[k].max {
      OwnIsFree(r.table, ps, k);
    }
    ReceiveNext(r, ps[k]);
    FitsAfter(r.table, ps, k);
  }

  lemma HolderStays(table: map<bytes, Entry>, ps: seq<Progress>, k: nat, key: bytes)
    requires AllProper(ps) && k < |ps| && ps[k].rest != [] && Fits(table, ps)
    requires key in TableAfter(table, ps[k])
    ensures var qs := ps[k := Next(ps[k])]; exists j :: 0 <= j < |qs| && Holds(qs[j], key)
  {
    var p, qs := ps[k], ps[k := Next(ps[k])];
    var own := Header(p.id, |p.rest[0]|);
    if key == own && |p.rest[0]| > p.max {
      assert Holds(qs[k], key);
    } else {
      var j :| 0 <= j < |ps| && Holds(ps[j], key);
      assert Holds(qs[j], key);
    }
  }

  // ---------- All senders together ----------

  function Pendings(ps: seq<Progress>): (w: seq<seq<bytes>>)
    requires forall k :: 0 <= k < |ps| ==> Proper(ps[k])
    ensures |w| == |ps|
  {
    seq(|ps|, k requires 0 <= k < |ps| && Proper(ps[k]) => Pending(ps[k]))
  }

  function Rests(ps: seq<Progress>): (w: seq<seq<bytes>>)
    ensures |w| == |ps|
  {
    seq(|ps|, k requires 0 <= k < |ps| => ps[k].rest)
  }

  lemma AllArrived(table: map<bytes, Entry>, ps: seq<Progress>)
    requires AllProper(ps) && Fits(table, ps) && Interleaves([], Pendings(ps))
    ensures table == map[] && Interleaves([], Rests(ps))
  {
    forall k | 0 <= k < |ps| ensures ps[k].rest == [] {
      assert Pendings(ps)[k] == [];
      if ps[k].rest != [] {
        PendingGoesOn(ps[k]);
      }
    }
  }

  /** After one datagram of sender k the others have as much to come as before. */
  lemma OneComes(wire: seq<bytes>, ps: seq<Progress>, k: nat)
    requires AllProper(ps) && k < |ps| && wire != [] && Pending(ps[k]) != [] && Pending(ps[k])[0] == wire[0]
    ensures ps[k].rest != [] && wire[0] == NextDatagram(ps[k])
    ensures AllProper(ps[k := Next(ps[k])]) && Without(Pendings(ps), k) == Pendings(ps[k := Next(ps[k])])
  {
    PendingGoesOn(ps[k]);
    PendingsGoOn(ps, k);
  }

  lemma PendingsGoOn(ps: seq<Progress>, k: nat)
    requires AllProper(ps) && k < |ps| && ps[k].rest != []
    ensures AllProper(ps[k := Next(ps[k])]) && Without(Pendings(ps), k) == Pendings(ps[k := Next(ps[k])])
  {
    var qs := ps[k := Next(ps[k])];
    forall j | 0 <= j < |ps| ensures Without(Pendings(ps), k)[j] == Pendings(qs)[j] {
      if j == k {
        PendingGoesOn(ps[k]);
      }
    }
  }

  /** From wherever the senders are: what is delivered from now on merges the messages
      that are not delivered yet, and nothing stays in the table. */
  lemma {:induction false} DeliveredInOrder(r: Receiver, wire: seq<bytes>, ps: seq<Progress>)
    requires AllProper(ps) && Fits(r.table, ps) && Interleaves(wire, Pendings(ps))
    ensures var after := ReceiveAll(r, wire); var n := |Messages(r.log)|;
      && after.table == map[]
      && Messages(r.log) <= Messages(after.log) && Interleaves(Messages(after.log)[n..], Rests(ps))
    decreases |wire|
  {
    if wire == [] {
      AllArrived(r.table, ps);
      assert Messages(r.log)[|Messages(r.log)|..] == [];
    } else {
      var k :| 0 <= k < |ps| && Comes(wire, Pendings(ps), k) && Interleaves(wire[1..], Without(Pendings(ps), k));
      assert Pendings(ps)[k] == Pending(ps[k]);
      OneComes(wire, ps, k);
      StepFits(r, ps, k);
      var qs, next := ps[k := Next(ps[k])], Receive(r, wire[0]);
      DeliveredInOrder(next, wire[1..], qs);
      MergeOne(ps, k, Messages(r.log), Messages(next.log), Messages(ReceiveAll(r, wire).log));
    }
  }

  lemma MergeOne(ps: seq<Progress>, k: nat, before: seq<bytes>, next: seq<bytes>, after: seq<bytes>)
    requires k < |ps| && Proper(ps[k]) && ps[k].rest != []
    requires next == before + if Completes(ps[k]) then [ps[k].rest[0]] else []
    requires next <= after && Interleaves(after[|next|..], Rests(ps[k := Next(ps[k])]))
    ensures before <= after && Interleaves(after[|before|..], Rests(ps))
  {
    var qs, late := ps[k := Next(ps[k])], after[|before|..];
    if Completes(ps[k]) {
      assert late[1..] == after[|next|..] && late[0] == ps[k].rest[0];
      assert Rests(qs) == Without(Rests(ps), k);
      assert Comes(late, Rests(ps), k);
    } else {
      assert Rests(qs) == Rests(ps) && next == before;
    }
  }

  function Started(senders: seq<Sender>): (ps: seq<Progress>)
    ensures |ps| == |senders|
  {
    seq(|senders|, k requires 0 <= k < |senders| =>
      Progress(senders[k].id, senders[k].max, 0, senders[k].messages))
  }

  function Sent(senders: seq<Sender>): (s: seq<seq<bytes>>)
    ensures |s| == |senders|
  {
    seq(|senders|, k requires 0 <= k < |senders| => senders[k].messages)
  }

  /** End to end: for any interleaving of the datagrams of any senders, the messages that
      the listener is given, all of them and in order, are a merge of the senders' lists
      of messages, and the table is empty when all has arrived. */
  lemma EveryMessageInOrder(wire: seq<bytes>, senders: seq<Sender>)
    requires Honest(senders) && Interleaves(wire, Parts(senders))
    ensures var r := ReceiveAll(Receiver(map[], []), wire);
      r.table == map[] && Interleaves(Messages(r.log), Sent(senders))
  {
    var ps := Started(senders);
    forall k | 0 <= k < |ps| ensures Pending(ps[k]) == Parts(senders)[k] {
      AsWire(ps[k]);
      WireIsAll(senders[k].id, senders[k].messages, senders[k].max);
    }
    assert Pendings(ps) == Parts(senders) && Rests(ps) == Sent(senders);
    DeliveredInOrder(Receiver(map[], []), wire, ps);
    var log := ReceiveAll(Receiver(map[], []), wire).log;
    assert Messages([]) == [] && Messages(log)[0..] == Messages(log);
  }
}
