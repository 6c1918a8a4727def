/** Reports validators that skip too many of their steps within a window (src/monitor/offline_reporter.py). */
module OfflineReporter {
  import opened Basics
  import opened PrimaryOracle
  import opened SkipReporter

  /** A skipped step; its length is the number of validators that take turns. */
  datatype OfflineInterval = OfflineInterval(step: int, length: int)

  /** One call of the reporter: whose turn was skipped, when, and how many validators take turns. */
  datatype SkipEvent = SkipEvent(validator: Address, step: int, length: int)

  datatype OfflineReport = OfflineReport(validator: Address, steps: seq<int>)

  /** The window size in steps and the allowed skip rate as a fraction. */
  datatype Limits = Limits(window: nat, allowed: nat, outOf: nat)

  // ---------------------------------------------------------------------------
  // The naive account: look through all skips ever reported
  // ---------------------------------------------------------------------------

  ghost predicate Ordered(events: seq<SkipEvent>) {
    && (forall i, j :: 0 <= i < j < |events| ==> events[i].step < events[j].step)
    && (forall i :: 0 <= i < |events| ==> 1 <= events[i].length)
  }

  /** The skips of `v` at or after `cutoff`. */
  ghost function Window(events: seq<SkipEvent>, v: Address, cutoff: int): seq<OfflineInterval> {
    if events == [] then [] else
      var e := events[|events| - 1];
      Window(events[..|events| - 1], v, cutoff) +
      if e.validator == v && cutoff <= e.step then [OfflineInterval(e.step, e.length)] else []
  }

  /** How long `v` was offline at or after `cutoff`. */
  ghost function WindowTime(events: seq<SkipEvent>, v: Address, cutoff: int): int {
    if events == [] then 0 else
      var e := events[|events| - 1];
      WindowTime(events[..|events| - 1], v, cutoff) + if e.validator == v && cutoff <= e.step then e.length else 0
  }

  /** With its last event, the event's validator exceeds the allowed rate in the window that ends there. */
  ghost predicate Exceeds(events: seq<SkipEvent>, limits: Limits) {
    && events != []
    && var e := events[|events| - 1];
       limits.allowed * limits.window < WindowTime(events, e.validator, e.step - limits.window) * limits.outOf
  }

  /** At some event of `v` so far the allowed rate was exceeded. */
  ghost predicate Offline(events: seq<SkipEvent>, limits: Limits, v: Address) {
    exists n :: 0 < n <= |events| && events[n - 1].validator == v && Exceeds(events[..n], limits)
  }

  function StepsOf(intervals: seq<OfflineInterval>): (steps: seq<int>)
    ensures |steps| == |intervals|
    ensures forall i :: 0 <= i < |steps| ==> steps[i] == intervals[i].step
  {
    seq(|intervals|, i requires 0 <= i < |intervals| => intervals[i].step)
  }

  /** A validator is reported once, at its first event that exceeds the rate, with its steps in the window. */
  ghost function Reports(events: seq<SkipEvent>, limits: Limits): seq<OfflineReport> {
    if events == [] then [] else
      var before, e := events[..|events| - 1], events[|events| - 1];
      Reports(before, limits) +
      if !Offline(before, limits, e.validator) && Exceeds(events, limits)
      then [OfflineReport(e.validator, StepsOf(Window(events, e.validator, e.step - limits.window)))]
      else []
  }

  lemma WindowSnoc(events: seq<SkipEvent>, e: SkipEvent, v: Address, cutoff: int)
    ensures Window(events + [e], v, cutoff) == Window(events, v, cutoff) +
            if e.validator == v && cutoff <= e.step then [OfflineInterval(e.step, e.length)] else []
    ensures WindowTime(events + [e], v, cutoff) == WindowTime(events, v, cutoff) +
            if e.validator == v && cutoff <= e.step then e.length else 0
  {
    assert (events + [e])[..|events|] == events;
  }

  lemma OfflineSnoc(events: seq<SkipEvent>, e: SkipEvent, limits: Limits, v: Address)
    ensures Offline(events + [e], limits, v) <==>
            Offline(events, limits, v) || (e.validator == v && Exceeds(events + [e], limits))
  {
    hide Exceeds;
    var all := events + [e];
    assert all[..|all|] == all;
    assert forall n :: 0 < n <= |events| ==> all[..n] == events[..n] && all[n - 1] == events[n - 1];
    if Offline(events, limits, v) {
      var n :| 0 < n <= |events| && events[n - 1].validator == v && Exceeds(events[..n], limits);
      assert Exceeds(all[..n], limits);
    }
    if Offline(all, limits, v) {
      var n :| 0 < n <= |all| && all[n - 1].validator == v && Exceeds(all[..n], limits);
      if n <= |events| {
        assert Exceeds(events[..n], limits);
      }
    }
    if e.validator == v && Exceeds(all, limits) {
      assert Exceeds(all[..|all|], limits);
    }
  }

  lemma ReportsSnoc(events: seq<SkipEvent>, e: SkipEvent, limits: Limits)
    ensures Reports(events + [e], limits) == Reports(events, limits) +
            if !Offline(events, limits, e.validator) && Exceeds(events + [e], limits)
            then [OfflineReport(e.validator, StepsOf(Window(events + [e], e.validator, e.step - limits.window)))]
            else []
  {
    assert (events + [e])[..|events|] == events;
  }

  /** A validator has a report exactly when it was offline, and never a second one. */
  lemma {:induction false} OneReportPerOfflineValidator(events: seq<SkipEvent>, limits: Limits)
    ensures forall v :: Offline(events, limits, v) <==>
            exists i :: 0 <= i < |Reports(events, limits)| && Reports(events, limits)[i].validator == v
    ensures var rs := Reports(events, limits);
            forall i, j :: 0 <= i < j < |rs| ==> rs[i].validator != rs[j].validator
  {
    if events != [] {
      var n := |events| - 1;
      var before, e := events[..n], events[n];
      OneReportPerOfflineValidator(before, limits);
      assert events == before + [e];
      ReportsSnoc(before, e, limits);
      var rs, rs' := Reports(before, limits), Reports(events, limits);
      assert rs <= rs';
      forall v
        ensures Offline(events, limits, v) <==> exists i :: 0 <= i < |rs'| && rs'[i].validator == v
      {
        OfflineSnoc(before, e, limits, v);
        if Offline(before, limits, v) {
          var i :| 0 <= i < |rs| && rs[i].validator == v;
          assert rs'[i].validator == v;
        } else if Offline(events, limits, v) {
          assert rs'[|rs|].validator == v;
        } else {
          forall i | 0 <= i < |rs'|
            ensures rs'[i].validator != v
          {
            if i < |rs| {
              assert rs'[i] == rs[i];
            }
          }
        }
      }
    }
  }

  // ---------------------------------------------------------------------------
  // Evicting from the front is looking through a later window
  // ---------------------------------------------------------------------------

  ghost function TotalLength(intervals: seq<OfflineInterval>): int {
    if intervals == [] then 0 else TotalLength(intervals[..|intervals| - 1]) + intervals[|intervals| - 1].length
  }

  /** Python's order on pairs. */
  predicate NotAfter(a: OfflineInterval, b: OfflineInterval) {
    a.step < b.step || (a.step == b.step && a.length <= b.length)
  }

  /** `bisect.bisect_right` on a sorted list: the first position whose interval is greater than the pivot. */
  function BisectIntervals(intervals: seq<OfflineInterval>, from: nat, pivot: OfflineInterval): (k: nat)
    requires from <= |intervals|
    ensures from <= k <= |intervals|
    ensures forall i :: from <= i < k ==> NotAfter(intervals[i], pivot)
    ensures k < |intervals| ==> !NotAfter(intervals[k], pivot)
    decreases |intervals| - from
  {
    if from == |intervals| || !NotAfter(intervals[from], pivot) then from
    else BisectIntervals(intervals, from + 1, pivot)
  }

  /** What bisection finds to be in the window that starts at `cutoff`. */
  function KeptIntervals(intervals: seq<OfflineInterval>, cutoff: int): seq<OfflineInterval> {
    intervals[BisectIntervals(intervals, 0, OfflineInterval(cutoff, 0))..]
  }

  /** The step does not come after the last interval of the list. */
  predicate IsOutOfOrder(intervals: seq<OfflineInterval>, step: int) {
    intervals != [] && step <= intervals[|intervals| - 1].step
  }

  /** Whether a skip can be added to its validator's list: it must come last and its validators must be known. */
  function Addable(intervals: seq<OfflineInterval>, step: int, validators: Result<seq<Address>>): Result<()> {
    if IsOutOfOrder(intervals, step) then Failure(SkipOutOfOrder)
    else if validators.Failure? then Failure(validators.error)
    else Success(())
  }

  /** Total length of the rest. */
  ghost function EvictedLength(intervals: seq<OfflineInterval>, cutoff: int): int {
    TotalLength(intervals[..BisectIntervals(intervals, 0, OfflineInterval(cutoff, 0))])
  }

  lemma NothingToEvict(cutoff: int)
    ensures KeptIntervals([], cutoff) == [] && EvictedLength([], cutoff) == 0
  {
  }

  /** The intervals before position `k` lie before `later`, the others do not. */
  ghost predicate SplitsAt(intervals: seq<OfflineInterval>, k: nat, later: int, last: int) {
    && k <= |intervals|
    && (forall i :: 0 <= i < k ==> intervals[i].step < later)
    && (forall i :: k <= i < |intervals| ==> later <= intervals[i].step)
    && (forall i :: 0 <= i < |intervals| ==> intervals[i].step <= last && 1 <= intervals[i].length)
  }

  lemma SplitWithNext(intervals: seq<OfflineInterval>, k: nat, later: int, last: int, x: OfflineInterval)
    returns (k': nat)
    requires SplitsAt(intervals, k, later, last) && last < x.step && 1 <= x.length
    ensures SplitsAt(intervals + [x], k', later, x.step)
    ensures later <= x.step ==>
              (intervals + [x])[k'..] == intervals[k..] + [x] && (intervals + [x])[..k'] == intervals[..k]
    ensures x.step < later ==>
              (intervals + [x])[k'..] == intervals[k..] && (intervals + [x])[..k'] == intervals[..k] + [x]
  {
    assert k < |intervals| ==> later <= intervals[k].step <= last;
    k' := if later <= x.step then k else |intervals| + 1;
  }

  /** Position `k` splits the window from `cutoff` on into what lies before `later` and the window from there on. */
  ghost predicate WindowSplitsAt(events: seq<SkipEvent>, v: Address, cutoff: int, later: int, k: nat) {
    var w := Window(events, v, cutoff);
    && k <= |w|
    && (events != [] ==> SplitsAt(w, k, later, events[|events| - 1].step))
    && w[k..] == Window(events, v, later)
    && TotalLength(w[..k]) == WindowTime(events, v, cutoff) - WindowTime(events, v, later)
  }

  lemma {:induction false} WindowSplits(events: seq<SkipEvent>, v: Address, cutoff: int, later: int) returns (k: nat)
    requires Ordered(events) && cutoff <= later
    ensures WindowSplitsAt(events, v, cutoff, later, k)
  {
    if events == [] {
      k := 0;
    } else {
      hide WindowSplitsAt, Ordered;
      var before, e := events[..|events| - 1], events[|events| - 1];
      assert events == before + [e];
      OrderedPrefix(before, e);
      k := WindowSplits(before, v, cutoff, later);
      k := WindowSplitsSnoc(before, e, v, cutoff, later, k);
    }
  }

  lemma PreviousStep(before: seq<SkipEvent>, e: SkipEvent) returns (last: int)
    requires Ordered(before + [e])
    ensures last < e.step
    ensures before != [] ==> last == before[|before| - 1].step
  {
    OrderedPrefix(before, e);
    last := if before == [] then e.step - 1 else before[|before| - 1].step;
  }

  lemma NothingSplits(events: seq<SkipEvent>, v: Address, cutoff: int, k: nat, later: int, last: int)
    requires events == [] && k <= |Window(events, v, cutoff)|
    ensures SplitsAt(Window(events, v, cutoff), k, later, last)
  {
  }

  lemma WindowSplitsSnoc(before: seq<SkipEvent>, e: SkipEvent, v: Address, cutoff: int, later: int, k: nat)
    returns (k': nat)
    requires cutoff <= later && Ordered(before + [e])
    requires WindowSplitsAt(before, v, cutoff, later, k)
    ensures WindowSplitsAt(before + [e], v, cutoff, later, k')
  {
    hide Window, WindowTime, TotalLength, Ordered, SplitsAt;
    OrderedPrefix(before, e);
    var w := Window(before, v, cutoff);
    var last := PreviousStep(before, e);
    if before == [] {
      NothingSplits(before, v, cutoff, k, later, last);
    }
    WindowSnoc(before, e, v, cutoff);
    WindowSnoc(before, e, v, later);
    if e.validator == v && cutoff <= e.step {
      var x := OfflineInterval(e.step, e.length);
      k' := SplitWithNext(w, k, later, last, x);
      TotalLengthSnoc(w[..k], x);
    } else {
      k' := k;
      assert w + [] == w;
      SplitsLater(w, k, later, last, e.step);
    }
  }

  lemma SplitsLater(intervals: seq<OfflineInterval>, k: nat, later: int, last: int, last': int)
    requires SplitsAt(intervals, k, later, last) && last <= last'
    ensures SplitsAt(intervals, k, later, last')
  {
  }

  lemma TotalLengthSnoc(intervals: seq<OfflineInterval>, x: OfflineInterval)
    ensures TotalLength([]) == 0
    ensures TotalLength(intervals + [x]) == TotalLength(intervals) + x.length
  {
    assert (intervals + [x])[..|intervals|] == intervals;
  }

  lemma BisectFindsSplit(intervals: seq<OfflineInterval>, k: nat, later: int, last: int)
    requires SplitsAt(intervals, k, later, last)
    ensures BisectIntervals(intervals, 0, OfflineInterval(later, 0)) == k
  {
    hide BisectIntervals;
    var b := BisectIntervals(intervals, 0, OfflineInterval(later, 0));
    assert forall i :: 0 <= i < k ==> NotAfter(intervals[i], OfflineInterval(later, 0));
    if k < |intervals| {
      assert !NotAfter(intervals[k], OfflineInterval(later, 0));
    }
  }

  /** Cutting off what bisection finds leaves the window from the cutoff on, which the cutoff itself belongs to. */
  lemma EvictionMovesWindow(events: seq<SkipEvent>, v: Address, cutoff: int, later: int)
    requires Ordered(events) && cutoff <= later
    ensures KeptIntervals(Window(events, v, cutoff), later) == Window(events, v, later)
    ensures EvictedLength(Window(events, v, cutoff), later) ==
            WindowTime(events, v, cutoff) - WindowTime(events, v, later)
  {
    hide BisectIntervals, Ordered;
    var k := WindowSplits(events, v, cutoff, later);
    if events != [] {
      BisectFindsSplit(Window(events, v, cutoff), k, later, events[|events| - 1].step);
    }
  }

  // ---------------------------------------------------------------------------
  // The reporter
  // ---------------------------------------------------------------------------

  /** Number of validators in charge at a height; 1 where the oracle knows none, which no report depends on. */
  function SetSize(history: seq<Epoch>, maxHeight: int, h: int): (n: nat)
    ensures 1 <= n
  {
    var r := ValidatorsAt(history, maxHeight, h);
    if r.Success? && r.value != [] then |r.value| else 1
  }

  function EventOf(history: seq<Epoch>, maxHeight: int, validator: Address, p: SkippedProposal): SkipEvent {
    SkipEvent(validator, p.step, SetSize(history, maxHeight, p.blockHeight))
  }

  /** Eviction turns the window of the last call into the one that ends with `e`. */
  lemma EvictedWindow(before: seq<SkipEvent>, e: SkipEvent, window: nat, cutoff: int, v: Address)
    requires Ordered(before + [e])
    requires before != [] ==> cutoff <= before[|before| - 1].step - window
    ensures var later := e.step - window;
            && KeptIntervals(Window(before, v, cutoff), later) == Window(before, v, later)
            && WindowTime(before, v, cutoff) - EvictedLength(Window(before, v, cutoff), later) ==
                WindowTime(before, v, later)
  {
    hide Window, WindowTime, EvictedLength, KeptIntervals;
    OrderedPrefix(before, e);
    if before == [] {
      NoWindow(before, v, cutoff);
      NoWindow(before, v, e.step - window);
      NothingToEvict(e.step - window);
    } else {
      EvictionMovesWindow(before, v, cutoff, e.step - window);
    }
  }

  lemma OfflineAfter(before: seq<SkipEvent>, e: SkipEvent, limits: Limits)
    ensures forall v :: Offline(before + [e], limits, v) <==>
                        Offline(before, limits, v) || (e.validator == v && Exceeds(before + [e], limits))
    ensures Exceeds(before + [e], limits) <==>
            limits.allowed * limits.window <
            WindowTime(before + [e], e.validator, e.step - limits.window) * limits.outOf
  {
    forall v
      ensures Offline(before + [e], limits, v) <==>
              Offline(before, limits, v) || (e.validator == v && Exceeds(before + [e], limits))
    {
      OfflineSnoc(before, e, limits, v);
    }
  }

  /** A skip of a validator that was offline before leaves the windows of all others as they are. */
  lemma NothingNewAbout(before: seq<SkipEvent>, e: SkipEvent, limits: Limits, v: Address, cutoff: int)
    requires e.validator == v && Offline(before, limits, v)
    requires before != [] ==> cutoff <= before[|before| - 1].step - limits.window
    ensures forall u :: u != v ==> Window(before + [e], u, cutoff) == Window(before, u, cutoff)
    ensures forall u :: u != v ==> WindowTime(before + [e], u, cutoff) == WindowTime(before, u, cutoff)
    ensures Ordered(before + [e]) ==> cutoff <= e.step - limits.window
  {
    hide Exceeds, Window, WindowTime;
    forall u | u != v
      ensures Window(before + [e], u, cutoff) == Window(before, u, cutoff)
      ensures WindowTime(before + [e], u, cutoff) == WindowTime(before, u, cutoff)
    {
      WindowSnoc(before, e, u, cutoff);
      assert Window(before, u, cutoff) + [] == Window(before, u, cutoff);
    }
    if Ordered(before + [e]) {
      OrderedPrefix(before, e);
      assert before[|before| - 1] in before;
    }
  }

  /** The window has the validator's skips at or after the cutoff, and its time is their total length. */
  lemma {:induction false} WindowMeans(events: seq<SkipEvent>, v: Address, cutoff: int)
    ensures forall x :: x in Window(events, v, cutoff) <==> SkipEvent(v, x.step, x.length) in events && cutoff <= x.step
    ensures WindowTime(events, v, cutoff) == TotalLength(Window(events, v, cutoff))
  {
    hide TotalLength;
    if events == [] {
      TotalLengthSnoc([], OfflineInterval(0, 0));
    } else {
      var before, e := events[..|events| - 1], events[|events| - 1];
      WindowMeans(before, v, cutoff);
      assert events == before + [e];
      assert Window(before, v, cutoff) + [] == Window(before, v, cutoff);
      TotalLengthSnoc(Window(before, v, cutoff), OfflineInterval(e.step, e.length));
    }
  }

  lemma NoWindow(events: seq<SkipEvent>, v: Address, cutoff: int)
    requires events == []
    ensures Window(events, v, cutoff) == [] && WindowTime(events, v, cutoff) == 0
  {
  }

  lemma OrderedPrefix(before: seq<SkipEvent>, e: SkipEvent)
    requires Ordered(before + [e])
    ensures Ordered(before)
    ensures forall x :: x in before ==> x.step < e.step
    ensures 1 <= e.length
  {
    var all := before + [e];
    assert all[|before|] == e;
    assert forall i :: 0 <= i < |before| ==> all[i] == before[i];
  }

  /** In order, the new skip is later than everything in its validator's window. */
  lemma {:induction false} WindowBeforeEvent(before: seq<SkipEvent>, e: SkipEvent, v: Address, cutoff: int)
    requires Ordered(before + [e])
    ensures forall x :: x in Window(before, v, cutoff) ==> x.step < e.step
  {
    OrderedPrefix(before, e);
    WindowFromEvents(before, v, cutoff);
  }

  lemma {:induction false} WindowFromEvents(events: seq<SkipEvent>, v: Address, cutoff: int)
    ensures forall x :: x in Window(events, v, cutoff) ==> exists y :: y in events && y.step == x.step
  {
    if events != [] {
      var n := |events| - 1;
      WindowFromEvents(events[..n], v, cutoff);
      forall x | x in Window(events, v, cutoff)
        ensures exists y :: y in events && y.step == x.step
      {
        if x in Window(events[..n], v, cutoff) {
          var y :| y in events[..n] && y.step == x.step;
          assert y in events;
        } else {
          assert events[n] in events && events[n].step == x.step;
        }
      }
    }
  }

  class OfflineReporter {
    const limits: Limits
    var reportedValidators: set<Address>
    var recentOfflineIntervals: map<Address, seq<OfflineInterval>>
    var offlineTime: map<Address, int>
    ghost var events: seq<SkipEvent>       // every call so far
    ghost var cutoff: int                  // start of the window at the last eviction
    ghost var sent: seq<OfflineReport>     // every report so far

    /** A missing entry is an empty list, as in a `defaultdict`. */
    function Intervals(v: Address): seq<OfflineInterval>
      reads this`recentOfflineIntervals
    {
      if v in recentOfflineIntervals then recentOfflineIntervals[v] else []
    }

    /** A missing entry is 0, as in a `defaultdict`. */
    function Time(v: Address): int
      reads this`offlineTime
    {
      if v in offlineTime then offlineTime[v] else 0
    }

    /** The running lists and sums of `v` are those of the naive window from `cut` on. */
    ghost predicate Tracks(v: Address, evs: seq<SkipEvent>, cut: int)
      reads this`recentOfflineIntervals, this`offlineTime
    {
      Intervals(v) == Window(evs, v, cut) && Time(v) == WindowTime(evs, v, cut)
    }

    ghost predicate Valid()
      reads this
    {
      && Ordered(events)
      && (events != [] ==> cutoff <= events[|events| - 1].step - limits.window)
      && (forall v :: v in reportedValidators <==> Offline(events, limits, v))
      && (forall v :: v in reportedValidators ==> v !in recentOfflineIntervals)
      && (forall v :: v !in reportedValidators ==> Tracks(v, events, cutoff))
      && sent == Reports(events, limits)
    }

    constructor (limits: Limits)
      ensures Valid() && events == [] && this.limits == limits
    {
      this.limits := limits;
      reportedValidators, recentOfflineIntervals, offlineTime := {}, map[], map[];
      events, cutoff, sent := [], 0, [];
    }

    /** Takes in a skip; reports its validator if it has been offline for too long in the window that ends now. */
    method OnSkip(primary: Address, proposal: SkippedProposal, oracle: PrimaryOracle)
      returns (r: Result<Option<OfflineReport>>)
      requires Valid() && oracle.Valid()
      modifies this
      ensures events == old(events) + [EventOf(oracle.added, oracle.maxHeight, primary, proposal)]
      ensures r.Success? && Ordered(events) ==> Valid()
      ensures r.Success? && Ordered(events) ==> sent == old(sent) + if r.value.Some? then [r.value.value] else []
      // reported is who was not reported before and exceeds the allowed rate in the window that ends now
      ensures r.Success? && Ordered(events) ==>
                (r.value.Some? <==>
                   && primary !in old(reportedValidators)
                   && limits.allowed * limits.window <
                      WindowTime(events, primary, proposal.step - limits.window) * limits.outOf)
      ensures r.Success? && Ordered(events) && r.value.Some? ==>
                r.value.value == OfflineReport(primary, StepsOf(Window(events, primary, proposal.step - limits.window)))
      ensures r.Success? ==>
                reportedValidators == old(reportedValidators) + if r.value.Some? then {primary} else {}
      // fails exactly for a validator not reported before whose skip cannot be added or compared with the window
      ensures var kept := KeptIntervals(old(Intervals(primary)), proposal.step - limits.window);
              var validators := ValidatorsAt(oracle.added, oracle.maxHeight, proposal.blockHeight);
              var added := Addable(kept, proposal.step, validators);
              && (r.Failure? <==> primary !in old(reportedValidators) && (added.Failure? || limits.window == 0))
              && (r.Failure? ==> r.error == if added.Failure? then added.error else DivisionByZero)
              && (r.Failure? && IsOutOfOrder(kept, proposal.step) ==> !Ordered(events))
    {
      hide Window, WindowTime, Offline, Reports, Exceeds, StepsOf, ValidatorsAt, Ordered, Tracks;
      hide Addable, KeptIntervals, IsOutOfOrder, Intervals;
      ghost var before, e := events, EventOf(oracle.added, oracle.maxHeight, primary, proposal);
      events := events + [e];
      ReportsSnoc(before, e, limits);
      OfflineAfter(before, e, limits);
      if primary in reportedValidators {
        OthersStayTracked(before, e);
        return Success(None);
      }
      var _ :- MoveWindow(primary, proposal, oracle, before);
      cutoff := proposal.step - limits.window;
      var offline :- IsOffline(primary, events);
      if !offline {
        return Success(None);
      }
      var report := ReportOffline(primary, events);
      sent := sent + [report];
      return Success(Some(report));
    }

    /** A skip of a validator that was reported before concerns no other list or sum. */
    lemma OthersStayTracked(before: seq<SkipEvent>, e: SkipEvent)
      requires Offline(before, limits, e.validator)
      requires before != [] ==> cutoff <= before[|before| - 1].step - limits.window
      ensures forall u :: u != e.validator && Tracks(u, before, cutoff) ==> Tracks(u, before + [e], cutoff)
      ensures Ordered(before + [e]) ==> cutoff <= e.step - limits.window
    {
      hide Window, WindowTime, Offline, Ordered, Intervals, Time;
      NothingNewAbout(before, e, limits, e.validator, cutoff);
    }

    /** Marks a validator as reported and takes its list out. */
    method ReportOffline(primary: Address, ghost evs: seq<SkipEvent>) returns (report: OfflineReport)
      modifies this`reportedValidators, this`recentOfflineIntervals
      ensures old(Tracks(primary, evs, cutoff)) ==>
              report == OfflineReport(primary, StepsOf(Window(evs, primary, cutoff)))
      ensures reportedValidators == old(reportedValidators) + {primary}
      ensures forall u :: u in recentOfflineIntervals <==> u in old(recentOfflineIntervals) && u != primary
      ensures forall u :: u != primary && old(Tracks(u, evs, cutoff)) ==> Tracks(u, evs, cutoff)
    {
      hide Window, WindowTime;
      reportedValidators := reportedValidators + {primary};
      report := OfflineReport(primary, StepsOf(Intervals(primary)));
      recentOfflineIntervals := recentOfflineIntervals - {primary};
    }

    /** Evicts what the new window leaves behind and adds the new skip. */
    method MoveWindow(primary: Address, proposal: SkippedProposal, oracle: PrimaryOracle, ghost before: seq<SkipEvent>)
      returns (r: Result<()>)
      requires oracle.Valid() && primary !in reportedValidators
      requires before != [] ==> cutoff <= before[|before| - 1].step - limits.window
      requires forall v :: v in reportedValidators ==> v !in recentOfflineIntervals
      requires forall v :: v !in reportedValidators ==> Tracks(v, before, cutoff)
      modifies this`recentOfflineIntervals, this`offlineTime
      ensures var e := EventOf(oracle.added, oracle.maxHeight, primary, proposal);
              var kept := KeptIntervals(old(Intervals(primary)), proposal.step - limits.window);
              && (IsOutOfOrder(kept, proposal.step) ==> !Ordered(before + [e]))
              && r == Addable(kept, proposal.step, ValidatorsAt(oracle.added, oracle.maxHeight, proposal.blockHeight))
              && (r.Success? && Ordered(before + [e]) ==>
                    forall v :: v !in reportedValidators ==> Tracks(v, before + [e], proposal.step - limits.window))
      ensures r.Success? ==> forall v :: v in reportedValidators ==> v !in recentOfflineIntervals
    {
      hide Window, WindowTime, ValidatorsAt, Ordered, Tracks, Intervals, Addable, KeptIntervals, IsOutOfOrder;
      ghost var e := EventOf(oracle.added, oracle.maxHeight, primary, proposal);
      MoveCutoff(proposal.step, before, e);
      r := AddSkip(primary, proposal, oracle, before);
    }

    /** Evicts what lies before the window that ends at `step`. */
    method MoveCutoff(step: int, ghost before: seq<SkipEvent>, ghost e: SkipEvent)
      requires e.step == step
      requires before != [] ==> cutoff <= before[|before| - 1].step - limits.window
      requires forall v :: v !in reportedValidators ==> Tracks(v, before, cutoff)
      modifies this`recentOfflineIntervals, this`offlineTime
      ensures recentOfflineIntervals.Keys == old(recentOfflineIntervals).Keys
      ensures forall v :: Intervals(v) == KeptIntervals(old(Intervals(v)), step - limits.window)
      ensures Ordered(before + [e]) ==> forall v :: v !in reportedValidators ==>
              Tracks(v, before, e.step - limits.window)
    {
      hide Window, WindowTime, Ordered, EvictedLength, KeptIntervals, Intervals, Time;
      ClearOutdatedOfflineIntervals(step);
      if Ordered(before + [e]) {
        forall v | v !in reportedValidators
          ensures Tracks(v, before, e.step - limits.window)
        {
          EvictedWindow(before, e, limits.window, cutoff, v);
        }
      }
    }

    /** Adds a skip to its validator's list and sum. */
    method AddSkip(primary: Address, proposal: SkippedProposal, oracle: PrimaryOracle, ghost before: seq<SkipEvent>)
      returns (r: Result<()>)
      requires oracle.Valid() && primary !in reportedValidators
      requires var e := EventOf(oracle.added, oracle.maxHeight, primary, proposal);
               Ordered(before + [e]) ==> forall v :: v !in reportedValidators ==>
                   Tracks(v, before, proposal.step - limits.window)
      modifies this`recentOfflineIntervals, this`offlineTime
      ensures var e := EventOf(oracle.added, oracle.maxHeight, primary, proposal);
              && (IsOutOfOrder(old(Intervals(primary)), proposal.step) ==> !Ordered(before + [e]))
              && r == Addable(old(Intervals(primary)), proposal.step,
                              ValidatorsAt(oracle.added, oracle.maxHeight, proposal.blockHeight))
              && (r.Success? && Ordered(before + [e]) ==>
                    forall v :: v !in reportedValidators ==> Tracks(v, before + [e], proposal.step - limits.window))
      ensures r.Success? ==> recentOfflineIntervals.Keys == old(recentOfflineIntervals).Keys + {primary}
    {
      hide Window, WindowTime, ValidatorsAt, Ordered, Intervals, Time, Addable;
      ghost var e, later := EventOf(oracle.added, oracle.maxHeight, primary, proposal), proposal.step - limits.window;
      ghost var w := Intervals(primary);
      if Ordered(before + [e]) {
        WindowBeforeEvent(before, e, primary, later);
        assert w != [] ==> w[|w| - 1] in w;
      }
      r := UpdateOfflineIntervals(primary, proposal, oracle);
      forall v
        ensures v !in reportedValidators && r.Success? && Ordered(before + [e]) ==> Tracks(v, before + [e], later)
      {
        WindowSnoc(before, e, v, later);
      }
    }

    method UpdateOfflineIntervals(v: Address, proposal: SkippedProposal, oracle: PrimaryOracle) returns (r: Result<()>)
      requires oracle.Valid()
      modifies this`recentOfflineIntervals, this`offlineTime
      ensures var e := EventOf(oracle.added, oracle.maxHeight, v, proposal);
              && r == Addable(old(Intervals(v)), proposal.step,
                              ValidatorsAt(oracle.added, oracle.maxHeight, proposal.blockHeight))
              && (r.Success? ==>
                    var validators := ValidatorsAt(oracle.added, oracle.maxHeight, proposal.blockHeight);
                    && validators.Success? && validators.value != [] && e.length == |validators.value|
                    && Intervals(v) == old(Intervals(v)) + [OfflineInterval(proposal.step, |validators.value|)])
              && (r.Success? ==> Intervals(v) == old(Intervals(v)) + [OfflineInterval(e.step, e.length)])
              && (r.Success? ==> Time(v) == old(Time(v)) + e.length)
      // a skip must come after those in its validator's list, and its validators must be known
      ensures var intervals := old(Intervals(v));
              r == Failure(SkipOutOfOrder) <==>
              intervals != [] && proposal.step <= intervals[|intervals| - 1].step
      ensures r.Failure? && r.error != SkipOutOfOrder ==>
                r.error in {NoEpochs, HeightUnknown, BeforeFirstEpoch}
      ensures r.Success? ==> forall u :: u != v ==> Intervals(u) == old(Intervals(u)) && Time(u) == old(Time(u))
      ensures r.Success? ==> recentOfflineIntervals.Keys == old(recentOfflineIntervals).Keys + {v}
    {
      hide ValidatorsAt;
      var intervals := Intervals(v);
      if IsOutOfOrder(intervals, proposal.step) {
        return Failure(SkipOutOfOrder);
      }
      var validators :- oracle.GetValidators(proposal.blockHeight);
      var length := |validators|;
      recentOfflineIntervals := recentOfflineIntervals[v := intervals + [OfflineInterval(proposal.step, length)]];
      offlineTime := offlineTime[v := Time(v) + length];
      return Success(());
    }

    /** The validator's offline time, as a share of the window, exceeds the allowed rate. */
    method IsOffline(v: Address, ghost evs: seq<SkipEvent>) returns (r: Result<bool>)
      ensures r.Failure? <==> limits.window == 0
      ensures r.Failure? ==> r.error == DivisionByZero
      ensures r.Success? && Tracks(v, evs, cutoff) ==>
                (r.value <==> limits.allowed * limits.window < WindowTime(evs, v, cutoff) * limits.outOf)
    {
      hide Window, WindowTime;
      if limits.window == 0 {
        return Failure(DivisionByZero);
      }
      return Success(limits.allowed * limits.window < Time(v) * limits.outOf);
    }

    /** Evicts from all lists, and subtracts from the sums, what lies before the window that ends at `step`. */
    method ClearOutdatedOfflineIntervals(step: int)
      modifies this`recentOfflineIntervals, this`offlineTime
      ensures recentOfflineIntervals.Keys == old(recentOfflineIntervals).Keys
      ensures forall v :: Intervals(v) == KeptIntervals(old(Intervals(v)), step - limits.window)
      ensures forall v :: Time(v) == old(Time(v)) - EvictedLength(old(Intervals(v)), step - limits.window)
    {
      hide TotalLength, KeptIntervals, EvictedLength;
      var cutoff := step - limits.window;
      NothingToEvict(cutoff);
      var cleared: map<Address, seq<OfflineInterval>> := map[];
      var rest := recentOfflineIntervals.Keys;
      while rest != {}
        invariant rest <= recentOfflineIntervals.Keys
        invariant cleared.Keys == recentOfflineIntervals.Keys - rest
        invariant recentOfflineIntervals == old(recentOfflineIntervals)
        invariant forall v :: v in cleared ==> cleared[v] == KeptIntervals(recentOfflineIntervals[v], cutoff)
        invariant forall v :: v in cleared ==>
                  Time(v) == old(Time(v)) - EvictedLength(recentOfflineIntervals[v], cutoff)
        invariant forall v :: v !in cleared ==> Time(v) == old(Time(v))
        decreases rest
      {
        var v :| v in rest;
        var kept := Evict(v, recentOfflineIntervals[v], cutoff);
        cleared := cleared[v := kept];
        rest := rest - {v};
      }
      recentOfflineIntervals := cleared;
    }

    method Evict(v: Address, intervals: seq<OfflineInterval>, cutoff: int) returns (kept: seq<OfflineInterval>)
      modifies this`offlineTime
      ensures kept == KeptIntervals(intervals, cutoff)
      ensures Time(v) == old(Time(v)) - EvictedLength(intervals, cutoff)
      ensures forall u :: u != v ==> Time(u) == old(Time(u))
    {
      var index := BisectIntervals(intervals, 0, OfflineInterval(cutoff, 0));
      SubtractLengths(v, intervals[..index]);
      return intervals[index..];
    }

    method SubtractLengths(v: Address, intervals: seq<OfflineInterval>)
      modifies this`offlineTime
      ensures Time(v) == old(Time(v)) - TotalLength(intervals)
      ensures forall u :: u != v ==> Time(u) == old(Time(u))
    {
      for i := 0 to |intervals|
        invariant Time(v) == old(Time(v)) - TotalLength(intervals[..i])
        invariant forall u :: u != v ==> Time(u) == old(Time(u))
      {
        assert intervals[..i + 1][..i] == intervals[..i];
        offlineTime := offlineTime[v := Time(v) - intervals[i].length];
      }
      assert intervals[..|intervals|] == intervals;
    }
  }
}
