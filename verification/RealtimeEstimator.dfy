/** The estimate of a fix's time on the boot clock, from modem data times and readings
    of two local clocks, one of which (UTC) may be stepped at any time. */
module RealtimeEstimator {
  import opened Options

  /** One reading of the local clocks, in nanoseconds but for the UTC seconds. */
  datatype Clocks = Clocks(utcSec: int, utcNsec: int, boot: int)

  /** A call of the estimator, with what the clocks gave it (None: reading failed). */
  datatype Event = Fix(data: int, trusted: bool, tbf: int, clocks: Option<Clocks>) | Reset

  const NANOS: int := 1_000_000_000
  const STABLE: int := 5

  // ---------- The object ----------

  class Estimator {
    var mCurrentClockDiff: int
    var mPrevUtcTimeNanos: int
    var mPrevBootTimeNanos: int
    var mFixTimeStablizationThreshold: int
    const mInitialTravelTime: int
    var mPrevDataTimeNanos: int

    ghost function Abs(): State
      reads this
    {
      State(mCurrentClockDiff, mPrevUtcTimeNanos, mPrevBootTimeNanos, mPrevDataTimeNanos, mFixTimeStablizationThreshold)
    }

    constructor (travelTimeNanosEstimate: int)
      ensures Abs() == INITIAL && mInitialTravelTime == travelTimeNanosEstimate
    {
      mInitialTravelTime := travelTimeNanosEstimate;
      new;
      DoReset();
    }

    method DoReset()
      modifies this
      ensures Abs() == INITIAL
    {
      mCurrentClockDiff, mPrevDataTimeNanos, mPrevUtcTimeNanos, mPrevBootTimeNanos := 0, 0, 0, 0;
      mFixTimeStablizationThreshold := STABLE;
    }

    method GetElapsedRealtimeEstimateNanos(data: int, trusted: bool, tbf: int, clocks: Option<Clocks>)
      returns (estimate: int)
      modifies this
      ensures Abs() == Step(mInitialTravelTime, old(Abs()), Fix(data, trusted, tbf, clocks)).0
      ensures estimate == Step(mInitialTravelTime, old(Abs()), Fix(data, trusted, tbf, clocks)).1
    {
      if clocks == None {
        return -1;
      }
      var travelTime, boot := mInitialTravelTime, clocks.value.boot;
      if trusted {
        if tbf > 0 && tbf != data - mPrevDataTimeNanos {
          mFixTimeStablizationThreshold := STABLE;
        }
        var utc := clocks.value.utcSec * NANOS + clocks.value.utcNsec;
        if mFixTimeStablizationThreshold == 0 {
          mCurrentClockDiff := utc - data - travelTime;
        } else if mFixTimeStablizationThreshold < 0 {
          mCurrentClockDiff := mCurrentClockDiff + (utc - boot) - (mPrevUtcTimeNanos - mPrevBootTimeNanos);
          travelTime := utc - data - mCurrentClockDiff;
        }
        mPrevUtcTimeNanos, mPrevBootTimeNanos, mPrevDataTimeNanos := utc, boot, data;
        mFixTimeStablizationThreshold := mFixTimeStablizationThreshold - 1;
      }
      return boot - travelTime;
    }
  }

  // ---------- The object's step as a function ----------

  datatype State = State(diff: int, prevUtc: int, prevBoot: int, prevData: int, threshold: int)

  const INITIAL := State(0, 0, 0, 0, STABLE)

  function Utc(c: Clocks): int {
    c.utcSec * NANOS + c.utcNsec
  }

  predicate Jumps(prevData: int, data: int, tbf: int) {
    tbf > 0 && tbf != data - prevData
  }

  function Step(travel0: int, s: State, e: Event): (State, int) {
    match e
    case Reset => (INITIAL, 0)
    case Fix(_, _, _, None) => (s, -1)
    case Fix(data, trusted, tbf, Some(c)) =>
      if !trusted then (s, c.boot - travel0)
      else
        var threshold := if Jumps(s.prevData, data, tbf) then STABLE else s.threshold;
        var diff :=
          if threshold == 0 then Utc(c) - data - travel0
          else if threshold < 0 then s.diff + (Utc(c) - c.boot) - (s.prevUtc - s.prevBoot)
          else s.diff;
        var travel := if threshold < 0 then Utc(c) - data - diff else travel0;
        (State(diff, Utc(c), c.boot, data, threshold - 1), c.boot - travel)
  }

  function StateAfter(travel0: int, es: seq<Event>): State {
    if es == [] then INITIAL else Step(travel0, StateAfter(travel0, es[..|es|-1]), es[|es|-1]).0
  }

  /** What the call e returns after the run es. */
  function Estimate(travel0: int, es: seq<Event>, e: Event): int {
    Step(travel0, StateAfter(travel0, es), e).1
  }

  // ---------- The ideal, which never looks at UTC ----------

  /** The fix that everything since is measured from. */
  datatype Anchor = Anchor(boot: int, data: int)

  /** Trusted fixes in a row since the last reset or jump (a jumping fix is the first of
      its row), the last data time, and the sixth fix of the row, if reached. */
  datatype Row = Row(count: nat, prevData: int, anchor: Option<Anchor>)

  function NextRow(r: Row, e: Event): Row {
    match e
    case Reset => Row(0, 0, None)
    case Fix(_, _, _, None) => r
    case Fix(data, trusted, tbf, Some(c)) =>
      if !trusted then r
      else if Jumps(r.prevData, data, tbf) then Row(1, data, None)
      else Row(r.count + 1, data, if r.count + 1 == 6 then Some(Anchor(c.boot, data)) else r.anchor)
  }

  function RowOf(es: seq<Event>): Row {
    if es == [] then Row(0, 0, None) else NextRow(RowOf(es[..|es|-1]), es[|es|-1])
  }

  /** The anchor's boot time less the initial travel time, plus the data time since. */
  function Ideal(travel0: int, es: seq<Event>, e: Event): int {
    match e
    case Reset => 0
    case Fix(_, _, _, None) => -1
    case Fix(data, trusted, _, Some(c)) =>
      var a := NextRow(RowOf(es), e).anchor;
      if trusted && a.Some? then a.value.boot - travel0 + (data - a.value.data) else c.boot - travel0
  }

  // ---------- The estimator is ideal ----------

  /** The clock difference telescopes to one that depends on the anchor alone. */
  ghost predicate Tracks(travel0: int, s: State, r: Row) {
    && s.threshold == STABLE - r.count && s.prevData == r.prevData
    && (r.anchor.Some? <==> r.count >= 6)
    && (r.anchor.Some? ==> s.diff == (s.prevUtc - s.prevBoot) + r.anchor.value.boot - r.anchor.value.data - travel0)
  }

  lemma StepTracks(travel0: int, s: State, r: Row, e: Event)
    requires Tracks(travel0, s, r)
    ensures Tracks(travel0, Step(travel0, s, e).0, NextRow(r, e))
  {
  }

  lemma {:induction false} RunTracks(travel0: int, es: seq<Event>)
    ensures Tracks(travel0, StateAfter(travel0, es), RowOf(es))
  {
    if es != [] {
      RunTracks(travel0, es[..|es|-1]);
      StepTracks(travel0, StateAfter(travel0, es[..|es|-1]), RowOf(es[..|es|-1]), es[|es|-1]);
    }
  }

  /** Clock-step immunity: after every run, every call returns the ideal estimate. */
  lemma EstimateIsIdeal(travel0: int, es: seq<Event>, e: Event)
    ensures Estimate(travel0, es, e) == Ideal(travel0, es, e)
  {
    RunTracks(travel0, es);
  }

  /** The same calls with any other UTC readings. */
  predicate SameButUtc(a: Event, b: Event) {
    match (a, b)
    case (Reset, Reset) => true
    case (Fix(d1, t1, f1, None), Fix(d2, t2, f2, None)) => d1 == d2 && t1 == t2 && f1 == f2
    case (Fix(d1, t1, f1, Some(c1)), Fix(d2, t2, f2, Some(c2))) =>
      d1 == d2 && t1 == t2 && f1 == f2 && c1.boot == c2.boot
    case _ => false
  }

  lemma {:induction false} RowIgnoresUtc(es: seq<Event>, fs: seq<Event>)
    requires |es| == |fs| && forall i :: 0 <= i < |es| ==> SameButUtc(es[i], fs[i])
    ensures RowOf(es) == RowOf(fs)
  {
    if es != [] {
      RowIgnoresUtc(es[..|es|-1], fs[..|fs|-1]);
    }
  }

  /** Two runs that differ only in the UTC values seen return the same estimates. */
  lemma UtcDoesNotMatter(travel0: int, es: seq<Event>, fs: seq<Event>, e: Event, f: Event)
    requires |es| == |fs| && forall i :: 0 <= i < |es| ==> SameButUtc(es[i], fs[i])
    requires SameButUtc(e, f)
    ensures Estimate(travel0, es, e) == Estimate(travel0, fs, f)
  {
    EstimateIsIdeal(travel0, es, e);
    EstimateIsIdeal(travel0, fs, f);
    RowIgnoresUtc(es, fs);
  }

  // ---------- Where the estimate is measured from ----------

  /** A trusted fix for which the clocks could be read. */
  datatype Trusted = Trusted(data: int, tbf: int, boot: int)

  /** Those since the last reset, in order. */
  function TrustedOf(es: seq<Event>): seq<Trusted> {
    if es == [] then []
    else
      var before := TrustedOf(es[..|es|-1]);
      match es[|es|-1]
      case Reset => []
      case Fix(data, true, tbf, Some(c)) => before + [Trusted(data, tbf, c.boot)]
      case _ => before
  }

  /** Fix j comes when it should after the one before, or has no time between fixes. */
  predicate OnSchedule(ts: seq<Trusted>, j: nat)
    requires 0 < j < |ts|
  {
    ts[j].tbf <= 0 || ts[j].data == ts[j-1].data + ts[j].tbf
  }

  /** The count starts at fix k: the first one since the reset, or one that is off its
      schedule, with every later one on it. */
  ghost predicate CountsFrom(ts: seq<Trusted>, k: nat) {
    && k < |ts| && (k == 0 || !OnSchedule(ts, k))
    && forall j :: k < j < |ts| ==> OnSchedule(ts, j)
  }

  ghost predicate RowFrom(r: Row, ts: seq<Trusted>, k: nat) {
    && k < |ts| && r.count == |ts| - k && r.prevData == ts[|ts|-1].data
    && r.anchor == if |ts| - k >= 6 then Some(Anchor(ts[k+5].boot, ts[k+5].data)) else None
  }

  /** One trusted fix more. */
  lemma RowGrows(r: Row, ts: seq<Trusted>, k: nat, e: Event, l: nat)
    requires e.Fix? && e.trusted && e.clocks.Some?
    requires if ts == [] then r == Row(0, 0, None) else RowFrom(r, ts, k) && CountsFrom(ts, k)
    requires var t := Trusted(e.data, e.tbf, e.clocks.value.boot); CountsFrom(ts + [t], l)
    ensures RowFrom(NextRow(r, e), ts + [Trusted(e.data, e.tbf, e.clocks.value.boot)], l)
  {
    var all := ts + [Trusted(e.data, e.tbf, e.clocks.value.boot)];
    if ts != [] {
      assert forall j :: 0 < j < |ts| ==> (OnSchedule(all, j) <==> OnSchedule(ts, j));
      assert all[|ts|-1] == ts[|ts|-1] && all[|ts|] == Trusted(e.data, e.tbf, e.clocks.value.boot);
      assert OnSchedule(all, |ts|) <==> !Jumps(r.prevData, e.data, e.tbf);
      if l < |ts| {
        assert forall j :: l < j < |ts| ==> OnSchedule(all, j);
        SameStart(ts, k, l);
        assert |ts| + 1 - k >= 6 ==> all[k+5] == if |ts| - k >= 6 then ts[k+5] else all[|ts|];
      }
    }
  }

  lemma SameStart(ts: seq<Trusted>, k: nat, l: nat)
    requires CountsFrom(ts, k) && l < |ts| && (l == 0 || !OnSchedule(ts, l))
    requires forall j :: l < j < |ts| ==> OnSchedule(ts, j)
    ensures k == l
  {
  }

  lemma {:induction false} StartExists(ts: seq<Trusted>) returns (k: nat)
    requires ts != []
    ensures CountsFrom(ts, k)
  {
    var n := |ts| - 1;
    if n == 0 || !OnSchedule(ts, n) {
      k := n;
    } else {
      k := StartExists(ts[..n]);
      assert forall j :: 0 < j < n ==> (OnSchedule(ts, j) <==> OnSchedule(ts[..n], j));
    }
  }

  lemma {:induction false} RowIsFrom(es: seq<Event>, k: nat)
    requires TrustedOf(es) != [] ==> CountsFrom(TrustedOf(es), k)
    ensures if TrustedOf(es) == [] then RowOf(es) == Row(0, 0, None) else RowFrom(RowOf(es), TrustedOf(es), k)
  {
    if es != [] {
      var front, e := es[..|es|-1], es[|es|-1];
      if e.Fix? {
        var j := 0;
        if TrustedOf(front) != [] {
          j := StartExists(TrustedOf(front));
        }
        RowIsFrom(front, j);
        if e.trusted && e.clocks.Some? {
          RowGrows(RowOf(front), TrustedOf(front), j, e, k);
        } else if TrustedOf(front) != [] {
          SameStart(TrustedOf(front), j, k);
        }
      }
    }
  }

  /** After every run: the first five trusted fixes of a count get boot time less the
      initial travel time. From the sixth on, the estimate is the sixth one's boot time
      less the initial travel time, plus the data time since. A fix off its schedule is the
      first of a new count. */
  lemma EstimateIsFromSixth(travel0: int, es: seq<Event>, data: int, tbf: int, c: Clocks, k: nat)
    requires var e := Fix(data, true, tbf, Some(c)); CountsFrom(TrustedOf(es + [e]), k)
    ensures var e := Fix(data, true, tbf, Some(c));
            var ts := TrustedOf(es + [e]);
      Estimate(travel0, es, e) ==
        if |ts| - k <= 5 then c.boot - travel0 else ts[k+5].boot - travel0 + (data - ts[k+5].data)
  {
    var e := Fix(data, true, tbf, Some(c));
    assert (es + [e])[..|es|] == es;
    EstimateIsIdeal(travel0, es, e);
    RowIsFrom(es + [e], k);
  }

  /** Untrusted fixes get boot time less the initial travel time, and nothing counts them;
      when the clocks cannot be read there is no estimate. */
  lemma OthersAreNotCounted(travel0: int, es: seq<Event>, data: int, trusted: bool, tbf: int, clocks: Option<Clocks>)
    requires !trusted || clocks == None
    ensures var e := Fix(data, trusted, tbf, clocks);
      && Estimate(travel0, es, e) == (if clocks == None then -1 else clocks.value.boot - travel0)
      && StateAfter(travel0, es + [e]) == StateAfter(travel0, es)
  {
    var e := Fix(data, trusted, tbf, clocks);
    assert (es + [e])[..|es|] == es;
  }
}
