/** The bounded history behind every SystemStatus report: the last five entries of a
    change log. */
module ReportHistory {
  import opened Sequences

  const MAX_ITEM: nat := 5

  /** What an item type decides for itself: whether an item is ignored, how it is merged
      with the newest entry, and whether the newest entry equals it. */
  datatype Rules<!S> = Rules(ignore: S -> bool, collate: (S, S) -> S, equals: (S, S) -> bool)

  /** A recorded item and when it was last reported. */
  datatype Entry<S> = Entry(value: S, reported: int)

  /** An item offered to the history, or a default that is recorded in any case. */
  datatype Input<S> = Item(value: S, reported: int) | Default(value: S, reported: int)

  // ---------- The change log ----------

  /** What offering an item does to the newest end of a log, and whether it counts as a
      change. */
  function Offer<S>(rules: Rules<S>, log: seq<Entry<S>>, s: S, reported: int): (seq<Entry<S>>, bool) {
    if rules.ignore(s) then (log, false)
    else if log == [] then ([Entry(s, reported)], true)
    else
      var n := |log| - 1;
      var merged := rules.collate(s, log[n].value);
      if rules.equals(log[n].value, merged) then (log[n := log[n].(reported := reported)], false)
      else (log + [Entry(merged, reported)], true)
  }

  function Record<S>(rules: Rules<S>, log: seq<Entry<S>>, i: Input<S>): (seq<Entry<S>>, bool) {
    match i
    case Item(s, reported) => Offer(rules, log, s, reported)
    case Default(s, reported) => (log + [Entry(s, reported)], true)
  }

  /** The log that is never truncated. */
  function LogOf<S>(rules: Rules<S>, inputs: seq<Input<S>>): seq<Entry<S>> {
    if inputs == [] then []
    else Record(rules, LogOf(rules, inputs[..|inputs|-1]), inputs[|inputs|-1]).0
  }

  function LastItems<S>(log: seq<Entry<S>>): seq<Entry<S>> {
    if |log| <= MAX_ITEM then log else log[|log| - MAX_ITEM..]
  }

  // ---------- The class ----------

  class Report<S> {
    var entries: seq<Entry<S>>

    constructor ()
      ensures entries == []
    {
      entries := [];
    }

    method PushBack(e: Entry<S>)
      requires |entries| <= MAX_ITEM
      modifies this
      ensures entries == LastItems(old(entries) + [e])
      ensures |entries| <= MAX_ITEM
    {
      entries := entries + [e];
      if |entries| > MAX_ITEM {
        entries := entries[1..];
      }
    }

    /** setIteminReport: only the newest entry and the bounded history are at hand. */
    method SetIteminReport(rules: Rules<S>, s: S, reported: int) returns (changed: bool)
      requires |entries| <= MAX_ITEM
      modifies this
      ensures var (log, verdict) := Offer(rules, old(entries), s, reported);
        entries == LastItems(log) && changed == verdict
      ensures |entries| <= MAX_ITEM
    {
      if rules.ignore(s) {
        return false;
      }
      if entries != [] {
        var back := |entries| - 1;
        var merged := rules.collate(s, entries[back].value);
        if rules.equals(entries[back].value, merged) {
          entries := entries[back := entries[back].(reported := reported)];
          return false;
        }
        PushBack(Entry(merged, reported));
      } else {
        assert entries + [Entry(s, reported)] == [Entry(s, reported)];
        PushBack(Entry(s, reported));
      }
      return true;
    }

    method SetDefaultIteminReport(s: S, reported: int)
      requires |entries| <= MAX_ITEM
      modifies this
      ensures entries == LastItems(old(entries) + [Entry(s, reported)])
      ensures |entries| <= MAX_ITEM
    {
      PushBack(Entry(s, reported));
    }
  }

  /** The history as it is kept: truncated after every input. */
  function HistoryOf<S>(rules: Rules<S>, inputs: seq<Input<S>>): seq<Entry<S>> {
    if inputs == [] then []
    else LastItems(Record(rules, HistoryOf(rules, inputs[..|inputs|-1]), inputs[|inputs|-1]).0)
  }

  lemma HistoryGoesOn<S>(rules: Rules<S>, inputs: seq<Input<S>>, last: Input<S>)
    ensures HistoryOf(rules, inputs + [last]) == LastItems(Record(rules, HistoryOf(rules, inputs), last).0)
  {
    Snoc(inputs, last);
  }

  /** For every stream of inputs the bounded history is the tail of the full change log,
      and the verdict on the next input, whichever it is, is the one that the full log
      would give. */
  lemma {:induction false} HistoryIsTailOfLog<S>(rules: Rules<S>, inputs: seq<Input<S>>, next: Input<S>)
    ensures HistoryOf(rules, inputs) == LastItems(LogOf(rules, inputs))
    ensures Record(rules, HistoryOf(rules, inputs), next).1 == Record(rules, LogOf(rules, inputs), next).1
  {
    if inputs != [] {
      var front, last := inputs[..|inputs|-1], inputs[|inputs|-1];
      HistoryIsTailOfLog(rules, front, next);
      TruncationIsInvisible(rules, LogOf(rules, front), last);
    }
    TruncationIsInvisible(rules, LogOf(rules, inputs), next);
  }

  /** Entry by entry: the history has the last five of the log, or all
      of it while there are fewer. */
  lemma HistoryIsLastFive<S>(rules: Rules<S>, inputs: seq<Input<S>>)
    ensures var log, history := LogOf(rules, inputs), HistoryOf(rules, inputs);
      && |history| == (if |log| < 5 then |log| else 5)
      && forall k :: 0 <= k < |history| ==> history[k] == log[|log| - |history| + k]
  {
    if inputs == [] {
    } else {
      HistoryIsTailOfLog(rules, inputs, inputs[0]);
    }
  }

  // ---------- What is recorded ----------

  /** One item: an ignored one does nothing; the first one is recorded as it is; another one
      is recorded, merged with the newest entry, if and only if that makes a difference,
      and otherwise only gives the newest entry a new report time. */
  lemma ItemIsRecorded<S>(rules: Rules<S>, log: seq<Entry<S>>, s: S, reported: int)
    ensures var (after, changed) := Offer(rules, log, s, reported);
            var n := |log| - 1;
            var merges := !rules.ignore(s) && log != [];
      && (changed <==> !rules.ignore(s)
                       && (log == [] || !rules.equals(log[n].value, rules.collate(s, log[n].value))))
      && (changed && log == [] ==> after == [Entry(s, reported)])
      && (changed && log != [] ==> after == log + [Entry(rules.collate(s, log[n].value), reported)])
      && (!changed ==> |after| == |log| && forall k :: 0 <= k < n ==> after[k] == log[k])
      && (!changed && log != [] ==>
            after[n] == Entry(log[n].value, if rules.ignore(s) then log[n].reported else reported))
  {
  }

  predicate Heeded<S>(rules: Rules<S>, i: Input<S>) {
    i.Default? || !rules.ignore(i.value)
  }

  function WithoutIgnored<S>(rules: Rules<S>, inputs: seq<Input<S>>): seq<Input<S>> {
    if inputs == [] then []
    else
      var n := |inputs| - 1;
      WithoutIgnored(rules, inputs[..n]) + if Heeded(rules, inputs[n]) then [inputs[n]] else []
  }

  /** Over every stream: ignored items leave no trace, and the newest entry was reported
      when the last other input was, whether that changed anything or not. */
  lemma {:induction false} LogIsOfHeeded<S>(rules: Rules<S>, inputs: seq<Input<S>>)
    ensures var log, heeded := LogOf(rules, inputs), WithoutIgnored(rules, inputs);
      && log == LogOf(rules, heeded)
      && (log == [] <==> heeded == [])
      && (log != [] ==> log[|log|-1].reported == heeded[|heeded|-1].reported)
  {
    if inputs != [] {
      var front, last := inputs[..|inputs|-1], inputs[|inputs|-1];
      var heeded := WithoutIgnored(rules, front);
      LogIsOfHeeded(rules, front);
      NewestAfter(rules, LogOf(rules, front), last);
      Unit(heeded);
      LogGoesOn(rules, heeded, last);
    }
  }

  lemma LogGoesOn<S>(rules: Rules<S>, inputs: seq<Input<S>>, last: Input<S>)
    ensures LogOf(rules, inputs + [last]) == Record(rules, LogOf(rules, inputs), last).0
    ensures (inputs + [last])[|inputs + [last]|-1] == last && inputs + [last] != []
  {
    Snoc(inputs, last);
  }

  lemma NewestAfter<S>(rules: Rules<S>, log: seq<Entry<S>>, i: Input<S>)
    ensures var after := Record(rules, log, i).0;
      if Heeded(rules, i) then after != [] && after[|after|-1].reported == i.reported else after == log
  {
  }

  /** And every entry of the log stands for one change, or default, that was reported as
      such. */
  function Changes<S>(rules: Rules<S>, inputs: seq<Input<S>>): nat {
    if inputs == [] then 0
    else
      var n := |inputs| - 1;
      Changes(rules, inputs[..n]) + if Record(rules, LogOf(rules, inputs[..n]), inputs[n]).1 then 1 else 0
  }

  lemma {:induction false} LogCountsChanges<S>(rules: Rules<S>, inputs: seq<Input<S>>)
    ensures |LogOf(rules, inputs)| == Changes(rules, inputs)
  {
    if inputs != [] {
      LogCountsChanges(rules, inputs[..|inputs|-1]);
    }
  }

  lemma TruncationIsInvisible<S>(rules: Rules<S>, log: seq<Entry<S>>, i: Input<S>)
    ensures var (short, changed) := Record(rules, LastItems(log), i);
      LastItems(short) == LastItems(Record(rules, log, i).0) && changed == Record(rules, log, i).1
  {
  }
}
