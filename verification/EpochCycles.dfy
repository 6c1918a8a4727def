/** Runs of fetch-then-add cycles over all validator contracts (src/monitor/validators.py). */
module EpochCycles {
  import opened Basics
  import opened Node
  import opened PrimaryOracle
  import opened ContractEpochs

  // ---------------------------------------------------------------------------
  // All contracts: a stale first fetcher is dropped
  // ---------------------------------------------------------------------------

  /** The earliest epoch of the first fetcher from position `from` on that has one. */
  function NextEarliest(fs: seq<Fetcher>, from: nat): (r: Option<Epoch>)
    requires from <= |fs|
    ensures r.Some? ==> exists i :: from <= i < |fs| && fs[i].earliest == r
    decreases |fs| - from
  {
    if from == |fs| then None
    else if fs[from].earliest.Some? then fs[from].earliest
    else NextEarliest(fs, from + 1)
  }

  /** The fetcher at `k` was asked at or above the earliest epoch of a later one. */
  predicate Stale(fs: seq<Fetcher>, k: nat) {
    && k < |fs|
    && fs[k].lastFetchHeight.Some?
    && NextEarliest(fs, k + 1).Some?
    && NextEarliest(fs, k + 1).value.startHeight <= fs[k].lastFetchHeight.value
  }

  lemma {:induction false} NextEarliestMeans(fs: seq<Fetcher>, from: nat)
    requires from <= |fs|
    ensures NextEarliest(fs, from).None? <==> forall i :: from <= i < |fs| ==> fs[i].earliest.None?
    ensures NextEarliest(fs, from).Some? ==>
              exists i :: from <= i < |fs| && fs[i].earliest == NextEarliest(fs, from) &&
                          forall j :: from <= j < i ==> fs[j].earliest.None?
    decreases |fs| - from
  {
    if from < |fs| && fs[from].earliest.None? {
      NextEarliestMeans(fs, from + 1);
    }
  }

  /** The first fetcher is stale: it was asked at or above the earliest epoch of the next fetcher that has one. */
  lemma StaleMeans(fs: seq<Fetcher>)
    ensures Stale(fs, 0) <==>
              && fs != [] && fs[0].lastFetchHeight.Some?
              && exists i :: 1 <= i < |fs| && fs[i].earliest.Some? &&
                             (forall j :: 1 <= j < i ==> fs[j].earliest.None?) &&
                             fs[i].earliest.value.startHeight <= fs[0].lastFetchHeight.value
  {
    hide NextEarliest;
    if fs != [] {
      NextEarliestMeans(fs, 1);
      forall i | 1 <= i < |fs| && fs[i].earliest.Some? && forall j :: 1 <= j < i ==> fs[j].earliest.None?
        ensures NextEarliest(fs, 1) == fs[i].earliest
      {
        var n :| 1 <= n < |fs| && fs[n].earliest == NextEarliest(fs, 1) &&
                 forall j :: 1 <= j < n ==> fs[j].earliest.None?;
        assert n == i;
      }
    }
  }

  function FirstNotStale(fs: seq<Fetcher>, from: nat): (n: nat)
    requires from <= |fs|
    ensures from <= n <= |fs|
    ensures forall k :: from <= k < n ==> Stale(fs, k)
    ensures !Stale(fs, n)
    decreases |fs| - from
  {
    if Stale(fs, from) then FirstNotStale(fs, from + 1) else from
  }

  function WithoutStale(fs: seq<Fetcher>): seq<Fetcher> {
    fs[FirstNotStale(fs, 0)..]
  }

  predicate AllAsked(fs: seq<Fetcher>) {
    forall i :: 0 <= i < |fs| ==> fs[i].lastFetchHeight.Some?
  }

  /** The lowest height at which one of the first `n` fetchers was asked. */
  function LowestFetch(fs: seq<Fetcher>, n: nat): (h: int)
    requires 0 < n <= |fs| && AllAsked(fs)
    ensures forall i :: 0 <= i < n ==> h <= fs[i].lastFetchHeight.value
    ensures exists i :: 0 <= i < n && h == fs[i].lastFetchHeight.value
  {
    if n == 1 then fs[0].lastFetchHeight.value
    else Min(LowestFetch(fs, n - 1), fs[n - 1].lastFetchHeight.value)
  }

  /** The height up to which no relevant epoch can be missing, given the node's block number. */
  function KnownHeight(fs: seq<Fetcher>, blockNumber: int): int {
    if fs == [] then blockNumber
    else if !AllAsked(fs) then 0
    else LowestFetch(fs, |fs|)
  }

  /** What the contracts list and what each cycle sees of them, by definition index. */
  ghost predicate LegalReadings(logs: seq<seq<ContractEpoch>>, readings: seq<Reading>) {
    && |readings| == |logs|
    && (forall k :: 0 <= k < |logs| ==> readings[k].visible <= |logs[k]|)
    && (forall k, i :: 0 <= k < |logs| && readings[k].visible <= i < |logs[k]| ==>
                         readings[k].blockNumber < logs[k][i].height)
  }

  ghost predicate LegalCycles(logs: seq<seq<ContractEpoch>>, cycles: seq<seq<Reading>>) {
    && (forall k :: 0 <= k < |logs| ==> HeightsIncrease(logs[k]))
    && (forall c :: 0 <= c < |cycles| ==> LegalReadings(logs, cycles[c]))
    && (forall c, d, k :: 0 <= c <= d < |cycles| && 0 <= k < |logs| ==> cycles[c][k].visible <= cycles[d][k].visible)
  }

  /** Fetchers in definition order, each for one of the logs. */
  ghost predicate InDefinitionOrder(fs: seq<Fetcher>, ranges: nat) {
    && (forall i :: 0 <= i < |fs| ==> 0 <= fs[i].definitionIndex < ranges)
    && (forall i, j :: 0 <= i < j < |fs| ==> fs[i].definitionIndex < fs[j].definitionIndex)
  }

  ghost predicate Readable(fs: seq<Fetcher>, logs: seq<seq<ContractEpoch>>, readings: seq<Reading>) {
    && |readings| == |logs|
    && (forall k :: 0 <= k < |logs| ==> readings[k].visible <= |logs[k]|)
    && (forall i :: 0 <= i < |fs| ==> 0 <= fs[i].definitionIndex < |logs|)
  }

  /** All new epochs of the first `n` fetchers. */
  ghost function NewFromAll(fs: seq<Fetcher>, logs: seq<seq<ContractEpoch>>, readings: seq<Reading>, n: nat): seq<Epoch>
    requires Readable(fs, logs, readings) && n <= |fs|
  {
    if n == 0 then [] else
      var k := fs[n - 1].definitionIndex;
      NewFromAll(fs, logs, readings, n - 1) + NewEpochs(fs[n - 1], logs[k], readings[k].visible)
  }

  ghost function FetchedAll(fs: seq<Fetcher>, logs: seq<seq<ContractEpoch>>, readings: seq<Reading>): (gs: seq<Fetcher>)
    requires Readable(fs, logs, readings)
    ensures |gs| == |fs|
    ensures forall i :: 0 <= i < |fs| ==>
                          gs[i] == Fetch(fs[i], logs[fs[i].definitionIndex], readings[fs[i].definitionIndex])
  {
    seq(|fs|, i requires 0 <= i < |fs| => Fetch(fs[i], logs[fs[i].definitionIndex], readings[fs[i].definitionIndex]))
  }

  /** The fetchers in use and every epoch handed to the oracle so far. */
  datatype Progress = Progress(fetchers: seq<Fetcher>, history: seq<Epoch>)

  /** One cycle; `popping` drops stale fetchers afterwards, as the monitor does. */
  ghost function Cycle(p: Progress, logs: seq<seq<ContractEpoch>>, readings: seq<Reading>, popping: bool): Progress
    requires Readable(p.fetchers, logs, readings)
  {
    var fetched := FetchedAll(p.fetchers, logs, readings);
    Progress(if popping then WithoutStale(fetched) else fetched,
             p.history + NewFromAll(p.fetchers, logs, readings, |p.fetchers|))
  }

  lemma SuffixInOrder(fs: seq<Fetcher>, d: nat, ranges: nat)
    requires InDefinitionOrder(fs, ranges) && d <= |fs|
    ensures InDefinitionOrder(fs[d..], ranges)
  {
  }

  lemma FetchedInOrder(fs: seq<Fetcher>, logs: seq<seq<ContractEpoch>>, readings: seq<Reading>)
    requires Readable(fs, logs, readings) && InDefinitionOrder(fs, |logs|)
    ensures InDefinitionOrder(FetchedAll(fs, logs, readings), |logs|)
  {
    hide NewEpochs, FetchedAll;
    var gs := FetchedAll(fs, logs, readings);
    forall i | 0 <= i < |fs|
      ensures gs[i].definitionIndex == fs[i].definitionIndex
    {
    }
  }

  lemma CycleInOrder(p: Progress, logs: seq<seq<ContractEpoch>>, readings: seq<Reading>, popping: bool)
    requires Readable(p.fetchers, logs, readings) && InDefinitionOrder(p.fetchers, |logs|)
    ensures InDefinitionOrder(Cycle(p, logs, readings, popping).fetchers, |logs|)
  {
    hide FetchedAll, FirstNotStale, NewFromAll, InDefinitionOrder, Readable;
    var fetched := FetchedAll(p.fetchers, logs, readings);
    FetchedInOrder(p.fetchers, logs, readings);
    SuffixInOrder(fetched, FirstNotStale(fetched, 0), |logs|);
  }

  /** The first `n` cycles of a run. */
  ghost function Cycles(p: Progress, logs: seq<seq<ContractEpoch>>, cycles: seq<seq<Reading>>, n: nat,
      popping: bool): (q: Progress)
    requires LegalCycles(logs, cycles) && n <= |cycles| && InDefinitionOrder(p.fetchers, |logs|)
    ensures InDefinitionOrder(q.fetchers, |logs|)
    decreases n
  {
    if n == 0 then p else
      var q := Cycles(p, logs, cycles, n - 1, popping);
      assert LegalReadings(logs, cycles[n - 1]);
      CycleInOrder(q, logs, cycles[n - 1], popping);
      Cycle(q, logs, cycles[n - 1], popping)
  }

  // ---------------------------------------------------------------------------
  // Dropping stale fetchers is invisible
  // ---------------------------------------------------------------------------

  /** How much of log `k` had been shown before cycle `n`. */
  ghost function ShownBefore(logs: seq<seq<ContractEpoch>>, cycles: seq<seq<Reading>>, n: nat, k: nat): nat
    requires LegalCycles(logs, cycles) && n <= |cycles| && k < |logs|
  {
    if n == 0 then 0 else
      assert LegalReadings(logs, cycles[n - 1]);
      cycles[n - 1][k].visible
  }

  /** Whatever `f` has not been shown yet is dominated by an epoch of the history. */
  ghost predicate Outdated(f: Fetcher, log: seq<ContractEpoch>, shown: nat, history: seq<Epoch>) {
    exists d :: d in history && f.definitionIndex < d.definitionIndex &&
                forall i :: shown <= i < |log| ==> d.startHeight <= log[i].height
  }

  lemma {:induction false} DominatedRunIsInvisible(history: seq<Epoch>, more: seq<Epoch>, h: int)
    requires forall e :: e in more ==> Dominated(history, e)
    ensures Scan(history + more, h) == Scan(history, h)
  {
    if more == [] {
      assert history + more == history;
    } else {
      var n := |more| - 1;
      assert history + more == (history + more[..n]) + [more[n]];
      DominatedRunIsInvisible(history, more[..n], h);
      assert Dominated(history, more[n]);
      DominatedIsInvisible(history + more[..n], more[n], h);
    }
  }

  lemma {:induction false} ScanCongruence(a: seq<Epoch>, b: seq<Epoch>, more: seq<Epoch>, h: int)
    requires Scan(a, h) == Scan(b, h)
    ensures Scan(a + more, h) == Scan(b + more, h)
  {
    if more == [] {
      assert a + more == a && b + more == b;
    } else {
      var n := |more| - 1;
      assert a + more == (a + more[..n]) + [more[n]] && b + more == (b + more[..n]) + [more[n]];
      ScanCongruence(a, b, more[..n], h);
      ScanSnoc(a + more[..n], more[n], h);
      ScanSnoc(b + more[..n], more[n], h);
    }
  }

  /** The new epochs split at any fetcher. */
  lemma {:induction false} NewFromAllSplits(fs: seq<Fetcher>, logs: seq<seq<ContractEpoch>>, readings: seq<Reading>,
      d: nat, n: nat)
    requires Readable(fs, logs, readings) && d <= n <= |fs|
    ensures NewFromAll(fs, logs, readings, n) ==
            NewFromAll(fs, logs, readings, d) + NewFromAll(fs[d..], logs, readings, n - d)
  {
    hide NewEpochs;
    if d < n {
      NewFromAllSplits(fs, logs, readings, d, n - 1);
      assert fs[d..][n - 1 - d] == fs[n - 1];
    }
  }

  ghost predicate UpToDate(f: Fetcher, logs: seq<seq<ContractEpoch>>, cycles: seq<seq<Reading>>, n: nat)
    requires LegalCycles(logs, cycles) && n <= |cycles|
  {
    && 0 <= f.definitionIndex < |logs|
    && ShownBefore(logs, cycles, n, f.definitionIndex) <= |logs[f.definitionIndex]|
    && CaughtUp(f, logs[f.definitionIndex], ShownBefore(logs, cycles, n, f.definitionIndex))
  }

  ghost predicate OutdatedAt(f: Fetcher, logs: seq<seq<ContractEpoch>>, cycles: seq<seq<Reading>>, n: nat,
      history: seq<Epoch>)
    requires LegalCycles(logs, cycles) && n <= |cycles|
  {
    && 0 <= f.definitionIndex < |logs|
    && Outdated(f, logs[f.definitionIndex], ShownBefore(logs, cycles, n, f.definitionIndex), history)
  }

  /** What outdated fetchers contribute in a cycle is dominated. */
  lemma {:induction false} OutdatedContributeNothing(
      fs: seq<Fetcher>, logs: seq<seq<ContractEpoch>>, cycles: seq<seq<Reading>>, n: nat, d: nat, history: seq<Epoch>)
    requires LegalCycles(logs, cycles) && n < |cycles| && Readable(fs, logs, cycles[n]) && d <= |fs|
    requires forall i :: 0 <= i < d ==> UpToDate(fs[i], logs, cycles, n) && OutdatedAt(fs[i], logs, cycles, n, history)
    ensures forall e :: e in NewFromAll(fs, logs, cycles[n], d) ==> Dominated(history, e)
  {
    if d > 0 {
      OutdatedContributeNothing(fs, logs, cycles, n, d - 1, history);
      var f := fs[d - 1];
      var k := f.definitionIndex;
      var shown, visible := ShownBefore(logs, cycles, n, k), cycles[n][k].visible;
      NewEpochsAreUnseen(f, logs[k], shown, visible);
      var ruler :| ruler in history && f.definitionIndex < ruler.definitionIndex &&
                forall i :: shown <= i < |logs[k]| ==> ruler.startHeight <= logs[k][i].height;
      forall e | e in NewEpochs(f, logs[k], visible)
        ensures Dominated(history, e)
      {
        var i :| shown <= i < visible && e == Clamped(f, logs[k][i]);
        assert ruler.startHeight <= e.startHeight;
      }
    }
  }

  lemma {:induction false} NewEpochsIndex(f: Fetcher, log: seq<ContractEpoch>, n: nat)
    requires n <= |log|
    ensures forall e :: e in NewEpochs(f, log, n) ==> e.definitionIndex == f.definitionIndex
  {
    if n > 0 {
      NewEpochsIndex(f, log, n - 1);
    }
  }

  lemma {:induction false} NewFromEach(fs: seq<Fetcher>, logs: seq<seq<ContractEpoch>>, readings: seq<Reading>,
      n: nat, i: nat)
    requires Readable(fs, logs, readings) && i < n <= |fs|
    ensures var k := fs[i].definitionIndex;
            forall e :: e in NewEpochs(fs[i], logs[k], readings[k].visible) ==> e in NewFromAll(fs, logs, readings, n)
  {
    hide NewEpochs;
    if i < n - 1 {
      NewFromEach(fs, logs, readings, n - 1, i);
    }
  }

  /** Earliest epochs are part of the history. */
  ghost predicate EarliestKnown(fs: seq<Fetcher>, history: seq<Epoch>) {
    forall i :: 0 <= i < |fs| && fs[i].earliest.Some? ==>
                  fs[i].earliest.value in history && fs[i].earliest.value.definitionIndex == fs[i].definitionIndex
  }

  lemma EarliestStayKnown(fs: seq<Fetcher>, history: seq<Epoch>, logs: seq<seq<ContractEpoch>>, readings: seq<Reading>)
    requires Readable(fs, logs, readings) && EarliestKnown(fs, history)
    ensures EarliestKnown(FetchedAll(fs, logs, readings), history + NewFromAll(fs, logs, readings, |fs|))
  {
    hide NewEpochs, NewFromAll, FetchedAll;
    var gs := FetchedAll(fs, logs, readings);
    var more := NewFromAll(fs, logs, readings, |fs|);
    forall i | 0 <= i < |gs| && gs[i].earliest.Some?
      ensures gs[i].earliest.value in history + more && gs[i].earliest.value.definitionIndex == gs[i].definitionIndex
    {
      var k := fs[i].definitionIndex;
      NewEpochsIndex(fs[i], logs[k], readings[k].visible);
      NewFromEach(fs, logs, readings, |fs|, i);
    }
  }

  /** A stale fetcher is outdated: the next fetcher's earliest epoch rules over all it has not been shown. */
  lemma StaleIsOutdated(fs: seq<Fetcher>, i: nat, log: seq<ContractEpoch>, r: Reading, history: seq<Epoch>, ranges: nat)
    requires Stale(fs, i) && EarliestKnown(fs, history) && InDefinitionOrder(fs, ranges)
    requires fs[i].lastFetchHeight == Some(r.blockNumber)
    requires forall j :: r.visible <= j < |log| ==> r.blockNumber < log[j].height
    ensures Outdated(fs[i], log, r.visible, history)
  {
    var d := NextEarliest(fs, i + 1).value;
    var j :| i + 1 <= j < |fs| && fs[j].earliest == Some(d);
    assert d in history && fs[i].definitionIndex < d.definitionIndex;
  }

  /** The first history is part of the second, and both answer every height alike. */
  ghost predicate AnswersAlike(some: seq<Epoch>, all: seq<Epoch>) {
    && (forall e :: e in some ==> e in all)
    && (forall h :: Scan(some, h) == Scan(all, h))
  }

  /** The relation between a run that pops and a run that keeps all fetchers, after `n` cycles and `d` pops. */
  ghost predicate Corresponds(pop: Progress, keep: Progress, d: nat, logs: seq<seq<ContractEpoch>>,
      cycles: seq<seq<Reading>>, n: nat)
    requires LegalCycles(logs, cycles) && n <= |cycles|
  {
    && d <= |keep.fetchers| && pop.fetchers == keep.fetchers[d..]
    && InDefinitionOrder(keep.fetchers, |logs|)
    && AnswersAlike(pop.history, keep.history)
    && EarliestKnown(pop.fetchers, pop.history)
    && (forall i :: 0 <= i < |keep.fetchers| ==> UpToDate(keep.fetchers[i], logs, cycles, n))
    && (forall i :: 0 <= i < d ==> OutdatedAt(keep.fetchers[i], logs, cycles, n, pop.history))
  }

  lemma ShownGrows(logs: seq<seq<ContractEpoch>>, cycles: seq<seq<Reading>>, n: nat, k: nat)
    requires LegalCycles(logs, cycles) && n < |cycles| && k < |logs|
    ensures LegalReadings(logs, cycles[n])
    ensures ShownBefore(logs, cycles, n, k) <= ShownBefore(logs, cycles, n + 1, k) == cycles[n][k].visible <= |logs[k]|
  {
  }

  lemma FetchStaysUpToDate(f: Fetcher, logs: seq<seq<ContractEpoch>>, cycles: seq<seq<Reading>>, n: nat)
    requires LegalCycles(logs, cycles) && n < |cycles| && LegalReadings(logs, cycles[n]) && UpToDate(f, logs, cycles, n)
    ensures UpToDate(Fetch(f, logs[f.definitionIndex], cycles[n][f.definitionIndex]), logs, cycles, n + 1)
  {
    hide NewEpochs;
    var k := f.definitionIndex;
    ShownGrows(logs, cycles, n, k);
    FetchCatchesUp(f, logs[k], ShownBefore(logs, cycles, n, k), cycles[n][k]);
  }

  lemma FetchStaysOutdated(f: Fetcher, logs: seq<seq<ContractEpoch>>, cycles: seq<seq<Reading>>, n: nat,
      history: seq<Epoch>, more: seq<Epoch>)
    requires LegalCycles(logs, cycles) && n < |cycles| && LegalReadings(logs, cycles[n]) &&
             OutdatedAt(f, logs, cycles, n, history)
    ensures OutdatedAt(Fetch(f, logs[f.definitionIndex], cycles[n][f.definitionIndex]), logs, cycles, n + 1,
            history + more)
  {
    hide NewEpochs;
    var k := f.definitionIndex;
    ShownGrows(logs, cycles, n, k);
    var d :| d in history && f.definitionIndex < d.definitionIndex &&
             forall i :: ShownBefore(logs, cycles, n, k) <= i < |logs[k]| ==> d.startHeight <= logs[k][i].height;
    assert d in history + more;
  }

  /** One cycle moves the answers of both runs alike. */
  lemma CycleAnswersAlike(pop: Progress, keep: Progress, d: nat, logs: seq<seq<ContractEpoch>>,
      cycles: seq<seq<Reading>>, n: nat)
    requires LegalCycles(logs, cycles) && n < |cycles| && LegalReadings(logs, cycles[n])
    requires Corresponds(pop, keep, d, logs, cycles, n)
    requires Readable(pop.fetchers, logs, cycles[n]) && Readable(keep.fetchers, logs, cycles[n])
    ensures AnswersAlike(pop.history + NewFromAll(pop.fetchers, logs, cycles[n], |pop.fetchers|),
                         keep.history + NewFromAll(keep.fetchers, logs, cycles[n], |keep.fetchers|))
  {
    hide NewEpochs, NewFromAll, Scan, LegalCycles, LegalReadings, InDefinitionOrder, UpToDate, OutdatedAt, Readable;
    var dropped := NewFromAll(keep.fetchers, logs, cycles[n], d);
    var rest := NewFromAll(pop.fetchers, logs, cycles[n], |pop.fetchers|);
    NewFromAllSplits(keep.fetchers, logs, cycles[n], d, |keep.fetchers|);
    OutdatedStaysOutdated(keep.fetchers, d, logs, cycles, n, pop.history, keep.history);
    OutdatedContributeNothing(keep.fetchers, logs, cycles, n, d, keep.history);
    assert keep.history + (dropped + rest) == (keep.history + dropped) + rest;
    forall h
      ensures Scan(pop.history + rest, h) == Scan((keep.history + dropped) + rest, h)
    {
      DominatedRunIsInvisible(keep.history, dropped, h);
      ScanCongruence(pop.history, keep.history + dropped, rest, h);
    }
  }

  lemma OutdatedStaysOutdated(
      fs: seq<Fetcher>, d: nat, logs: seq<seq<ContractEpoch>>, cycles: seq<seq<Reading>>, n: nat, some: seq<Epoch>,
      all: seq<Epoch>)
    requires LegalCycles(logs, cycles) && n < |cycles| && d <= |fs|
    requires forall e :: e in some ==> e in all
    requires forall i :: 0 <= i < d ==> OutdatedAt(fs[i], logs, cycles, n, some)
    ensures forall i :: 0 <= i < d ==> OutdatedAt(fs[i], logs, cycles, n, all)
  {
    hide LegalCycles, CaughtUp, ShownBefore;
  }

  /** After a cycle the dropped fetchers, old and new, are outdated. */
  lemma DroppedAreOutdated(pop: Progress, keep: Progress, d: nat, logs: seq<seq<ContractEpoch>>,
      cycles: seq<seq<Reading>>, n: nat, i: nat)
    requires LegalCycles(logs, cycles) && n < |cycles| && LegalReadings(logs, cycles[n])
    requires Corresponds(pop, keep, d, logs, cycles, n)
    requires var fetched := FetchedAll(pop.fetchers, logs, cycles[n]); i < d + FirstNotStale(fetched, 0)
    ensures i < |keep.fetchers|
    ensures OutdatedAt(FetchedAll(keep.fetchers, logs, cycles[n])[i], logs, cycles, n + 1,
                       pop.history + NewFromAll(pop.fetchers, logs, cycles[n], |pop.fetchers|))
  {
    hide NewEpochs, NewFromAll, Scan, FetchedAll, CaughtUp, LegalCycles, Outdated, FirstNotStale, Stale;
    var more := NewFromAll(pop.fetchers, logs, cycles[n], |pop.fetchers|);
    var fetched := FetchedAll(pop.fetchers, logs, cycles[n]);
    if i < d {
      FetchStaysOutdated(keep.fetchers[i], logs, cycles, n, pop.history, more);
    } else {
      var j, f := i - d, keep.fetchers[i];
      assert f == pop.fetchers[j] && Stale(fetched, j);
      var k := f.definitionIndex;
      assert UpToDate(f, logs, cycles, n);
      ShownGrows(logs, cycles, n, k);
      SuffixInOrder(keep.fetchers, d, |logs|);
      FetchedInOrder(pop.fetchers, logs, cycles[n]);
      EarliestStayKnown(pop.fetchers, pop.history, logs, cycles[n]);
      StaleIsOutdated(fetched, j, logs[k], cycles[n][k], pop.history + more, |logs|);
    }
  }

  lemma FetchedSuffix(fs: seq<Fetcher>, d: nat, logs: seq<seq<ContractEpoch>>, readings: seq<Reading>)
    requires Readable(fs, logs, readings) && d <= |fs|
    ensures FetchedAll(fs[d..], logs, readings) == FetchedAll(fs, logs, readings)[d..]
  {
    hide NewEpochs;
  }

  /** One cycle keeps the two runs in correspondence. */
  lemma CycleCorresponds(pop: Progress, keep: Progress, d: nat, logs: seq<seq<ContractEpoch>>,
      cycles: seq<seq<Reading>>, n: nat)
    returns (d': nat)
    requires LegalCycles(logs, cycles) && n < |cycles| && LegalReadings(logs, cycles[n])
    requires Readable(pop.fetchers, logs, cycles[n]) && Readable(keep.fetchers, logs, cycles[n])
    requires Corresponds(pop, keep, d, logs, cycles, n)
    ensures Corresponds(Cycle(pop, logs, cycles[n], true), Cycle(keep, logs, cycles[n], false), d', logs, cycles, n + 1)
  {
    hide NewEpochs, NewFromAll, FetchedAll, LegalCycles, FirstNotStale, UpToDate, OutdatedAt, LegalReadings, Readable;
    hide AnswersAlike, EarliestKnown, InDefinitionOrder, Scan, Outdated, CaughtUp, HeightsIncrease;
    var pop' := Cycle(pop, logs, cycles[n], true);
    var fetched := FetchedAll(pop.fetchers, logs, cycles[n]);
    d' := d + FirstNotStale(fetched, 0);
    CycleInOrder(keep, logs, cycles[n], false);
    CycleAnswersAlike(pop, keep, d, logs, cycles, n);
    EarliestStayKnown(pop.fetchers, pop.history, logs, cycles[n]);
    EarliestKnownSuffix(fetched, FirstNotStale(fetched, 0), pop'.history);
    PoppedSuffix(pop.fetchers, keep.fetchers, d, logs, cycles[n]);
    AllStayUpToDate(keep.fetchers, logs, cycles, n);
    forall i | 0 <= i < d'
      ensures i < |keep.fetchers| &&
              OutdatedAt(FetchedAll(keep.fetchers, logs, cycles[n])[i], logs, cycles, n + 1, pop'.history)
    {
      DroppedAreOutdated(pop, keep, d, logs, cycles, n, i);
    }
  }

  lemma PoppedSuffix(pop: seq<Fetcher>, keep: seq<Fetcher>, d: nat, logs: seq<seq<ContractEpoch>>,
      readings: seq<Reading>)
    requires d <= |keep| && pop == keep[d..]
    requires Readable(keep, logs, readings) && Readable(pop, logs, readings)
    ensures var fetched := FetchedAll(pop, logs, readings);
            var d' := d + FirstNotStale(fetched, 0);
            d' <= |keep| && WithoutStale(fetched) == FetchedAll(keep, logs, readings)[d'..]
  {
    hide NewEpochs, FetchedAll, FirstNotStale, Readable;
    FetchedSuffix(keep, d, logs, readings);
  }

  lemma AllStayUpToDate(fs: seq<Fetcher>, logs: seq<seq<ContractEpoch>>, cycles: seq<seq<Reading>>, n: nat)
    requires LegalCycles(logs, cycles) && n < |cycles| && LegalReadings(logs, cycles[n]) &&
             Readable(fs, logs, cycles[n])
    requires forall i :: 0 <= i < |fs| ==> UpToDate(fs[i], logs, cycles, n)
    ensures forall i :: 0 <= i < |fs| ==> UpToDate(FetchedAll(fs, logs, cycles[n])[i], logs, cycles, n + 1)
  {
    hide NewEpochs, FetchedAll, LegalCycles, LegalReadings;
    forall i | 0 <= i < |fs|
      ensures UpToDate(FetchedAll(fs, logs, cycles[n])[i], logs, cycles, n + 1)
    {
      FetchStaysUpToDate(fs[i], logs, cycles, n);
    }
  }

  lemma EarliestKnownSuffix(fs: seq<Fetcher>, d: nat, history: seq<Epoch>)
    requires EarliestKnown(fs, history) && d <= |fs|
    ensures EarliestKnown(fs[d..], history)
  {
  }

  lemma {:induction false} RunsCorrespond(start: Progress, logs: seq<seq<ContractEpoch>>, cycles: seq<seq<Reading>>,
      n: nat) returns (d: nat)
    requires LegalCycles(logs, cycles) && n <= |cycles| && InDefinitionOrder(start.fetchers, |logs|)
    requires forall f :: f in start.fetchers ==> IsFresh(f)
    ensures Corresponds(Cycles(start, logs, cycles, n, true), Cycles(start, logs, cycles, n, false), d, logs, cycles, n)
  {
    hide Corresponds, Cycle, LegalCycles, LegalReadings, InDefinitionOrder, Readable;
    if n == 0 {
      d := 0;
      StartCorresponds(start, logs, cycles);
    } else {
      hide Cycles;
      d := RunsCorrespond(start, logs, cycles, n - 1);
      CyclesStep(start, logs, cycles, n, true);
      CyclesStep(start, logs, cycles, n, false);
      var pop, keep := Cycles(start, logs, cycles, n - 1, true), Cycles(start, logs, cycles, n - 1, false);
      d := CycleCorresponds(pop, keep, d, logs, cycles, n - 1);
    }
  }

  lemma CyclesStep(start: Progress, logs: seq<seq<ContractEpoch>>, cycles: seq<seq<Reading>>, n: nat, popping: bool)
    requires LegalCycles(logs, cycles) && 0 < n <= |cycles| && InDefinitionOrder(start.fetchers, |logs|)
    ensures LegalReadings(logs, cycles[n - 1])
    ensures Readable(Cycles(start, logs, cycles, n - 1, popping).fetchers, logs, cycles[n - 1])
    ensures Cycles(start, logs, cycles, n, popping) ==
            Cycle(Cycles(start, logs, cycles, n - 1, popping), logs, cycles[n - 1], popping)
  {
    hide Cycle;
  }

  lemma StartCorresponds(start: Progress, logs: seq<seq<ContractEpoch>>, cycles: seq<seq<Reading>>)
    requires LegalCycles(logs, cycles) && InDefinitionOrder(start.fetchers, |logs|)
    requires forall f :: f in start.fetchers ==> IsFresh(f)
    ensures Corresponds(start, start, 0, logs, cycles, 0)
  {
    hide LegalCycles, Scan;
    assert start.fetchers[0..] == start.fetchers;
    forall i | 0 <= i < |start.fetchers|
      ensures UpToDate(start.fetchers[i], logs, cycles, 0) && start.fetchers[i].earliest.None?
    {
      assert IsFresh(start.fetchers[i]);
    }
  }

  /**
   * Over any run of fetch-then-add cycles, an oracle fed by fetchers that are popped when stale
   * answers every height exactly like one fed by fetchers that are never popped.
   */
  lemma PoppingIsInvisible(start: Progress, logs: seq<seq<ContractEpoch>>, cycles: seq<seq<Reading>>, h: int)
    requires LegalCycles(logs, cycles) && InDefinitionOrder(start.fetchers, |logs|)
    requires forall f :: f in start.fetchers ==> IsFresh(f)
    ensures Lookup(Build(Cycles(start, logs, cycles, |cycles|, true).history), h) ==
            Lookup(Build(Cycles(start, logs, cycles, |cycles|, false).history), h)
  {
    hide Build, Scan, Lookup, Cycles;
    var d := RunsCorrespond(start, logs, cycles, |cycles|);
    StaircaseRefinesScan(Cycles(start, logs, cycles, |cycles|, true).history, h);
    StaircaseRefinesScan(Cycles(start, logs, cycles, |cycles|, false).history, h);
  }

  // ---------------------------------------------------------------------------
  // No epoch appears at or below the known height later on
  // ---------------------------------------------------------------------------

  /** The run of the monitor: stale fetchers are popped. */
  ghost function Run(start: seq<Fetcher>, logs: seq<seq<ContractEpoch>>, cycles: seq<seq<Reading>>,
      n: nat): (q: Progress)
    requires LegalCycles(logs, cycles) && n <= |cycles| && InDefinitionOrder(start, |logs|)
    ensures InDefinitionOrder(q.fetchers, |logs|)
  {
    Cycles(Progress(start, []), logs, cycles, n, true)
  }

  /** After a cycle every fetcher left has been asked in it and has caught up with what it was shown. */
  lemma RunIsUpToDate(start: seq<Fetcher>, logs: seq<seq<ContractEpoch>>, cycles: seq<seq<Reading>>, n: nat, i: nat)
    requires LegalCycles(logs, cycles) && n <= |cycles| && InDefinitionOrder(start, |logs|)
    requires forall f :: f in start ==> IsFresh(f)
    requires i < |Run(start, logs, cycles, n).fetchers|
    ensures UpToDate(Run(start, logs, cycles, n).fetchers[i], logs, cycles, n)
    ensures n > 0 ==> var f := Run(start, logs, cycles, n).fetchers[i];
                      f.lastFetchHeight == Some(cycles[n - 1][f.definitionIndex].blockNumber)
  {
    var p := Progress(start, []);
    var d := RunsCorrespond(p, logs, cycles, n);
    assert UpToDate(Cycles(p, logs, cycles, n, false).fetchers[d + i], logs, cycles, n);
    if n > 0 {
      WasAsked(p, logs, cycles, n, i);
    }
  }

  lemma WasAsked(p: Progress, logs: seq<seq<ContractEpoch>>, cycles: seq<seq<Reading>>, n: nat, i: nat)
    requires LegalCycles(logs, cycles) && 0 < n <= |cycles| && InDefinitionOrder(p.fetchers, |logs|)
    requires i < |Cycles(p, logs, cycles, n, true).fetchers|
    ensures var f := Cycles(p, logs, cycles, n, true).fetchers[i];
            && 0 <= f.definitionIndex < |cycles[n - 1]|
            && f.lastFetchHeight == Some(cycles[n - 1][f.definitionIndex].blockNumber)
  {
    hide LegalCycles, Cycles, NewEpochs, NewFromAll, FirstNotStale, InDefinitionOrder, FetchedAll, Stale;
    CyclesStep(p, logs, cycles, n, true);
    var q := Cycles(p, logs, cycles, n - 1, true);
    var fetched := FetchedAll(q.fetchers, logs, cycles[n - 1]);
    assert Cycles(p, logs, cycles, n, true).fetchers[i] == fetched[FirstNotStale(fetched, 0) + i];
  }

  /** Every epoch of a later cycle starts above the height that was known before it. */
  lemma NewEpochsAreAboveKnown(start: seq<Fetcher>, logs: seq<seq<ContractEpoch>>, cycles: seq<seq<Reading>>, n: nat,
      blockNumber: int)
    requires LegalCycles(logs, cycles) && 0 < n < |cycles| && InDefinitionOrder(start, |logs|)
    requires forall f :: f in start ==> IsFresh(f)
    ensures var fs := Run(start, logs, cycles, n).fetchers;
            && Readable(fs, logs, cycles[n])
            && forall e :: e in NewFromAll(fs, logs, cycles[n], |fs|) ==> KnownHeight(fs, blockNumber) < e.startHeight
  {
    hide NewEpochs, NewFromAll, CaughtUp, LegalCycles, Run, FirstNotStale;
    var fs := Run(start, logs, cycles, n).fetchers;
    var known := KnownHeight(fs, blockNumber);
    ReadingIsLegal(logs, cycles, n);
    ReadingIsLegal(logs, cycles, n - 1);
    forall i | 0 <= i < |fs|
      ensures AboveIn(fs[i], logs, cycles[n], known)
    {
      RunIsUpToDate(start, logs, cycles, n, i);
      assert known <= fs[i].lastFetchHeight.value by {
        RunAsksAll(start, logs, cycles, n);
        assert known == LowestFetch(fs, |fs|);
      }
      NewOfOneAbove(fs[i], logs, cycles, n, known);
    }
    NewOfAllAbove(fs, logs, cycles[n], |fs|, known);
  }

  lemma ReadingIsLegal(logs: seq<seq<ContractEpoch>>, cycles: seq<seq<Reading>>, n: nat)
    requires LegalCycles(logs, cycles) && n < |cycles|
    ensures LegalReadings(logs, cycles[n])
  {
  }

  lemma RunAsksAll(start: seq<Fetcher>, logs: seq<seq<ContractEpoch>>, cycles: seq<seq<Reading>>, n: nat)
    requires LegalCycles(logs, cycles) && 0 < n <= |cycles| && InDefinitionOrder(start, |logs|)
    requires forall f :: f in start ==> IsFresh(f)
    ensures AllAsked(Run(start, logs, cycles, n).fetchers)
  {
    hide LegalCycles, Run;
    var fs := Run(start, logs, cycles, n).fetchers;
    forall i | 0 <= i < |fs|
      ensures fs[i].lastFetchHeight.Some?
    {
      RunIsUpToDate(start, logs, cycles, n, i);
    }
  }

  /** All that `f` takes from a reading starts above `known`. */
  ghost predicate AboveIn(f: Fetcher, logs: seq<seq<ContractEpoch>>, readings: seq<Reading>, known: int) {
    && 0 <= f.definitionIndex < |logs| == |readings|
    && readings[f.definitionIndex].visible <= |logs[f.definitionIndex]|
    && forall e :: e in NewEpochs(f, logs[f.definitionIndex], readings[f.definitionIndex].visible) ==>
        known < e.startHeight
  }

  lemma NewOfOneAbove(f: Fetcher, logs: seq<seq<ContractEpoch>>, cycles: seq<seq<Reading>>, n: nat, known: int)
    requires LegalCycles(logs, cycles) && 0 < n < |cycles| && UpToDate(f, logs, cycles, n)
    requires LegalReadings(logs, cycles[n]) && LegalReadings(logs, cycles[n - 1])
    requires known <= cycles[n - 1][f.definitionIndex].blockNumber
    ensures AboveIn(f, logs, cycles[n], known)
  {
    hide NewEpochs;
    var k := f.definitionIndex;
    var log, seen := logs[k], cycles[n - 1][k].visible;
    NewEpochsAreUnseen(f, log, seen, cycles[n][k].visible);
    forall e | e in NewEpochs(f, log, cycles[n][k].visible)
      ensures known < e.startHeight
    {
      var i :| seen <= i < cycles[n][k].visible && e == Clamped(f, log[i]);
      assert cycles[n - 1][k].blockNumber < log[i].height;
    }
  }

  lemma {:induction false} NewOfAllAbove(fs: seq<Fetcher>, logs: seq<seq<ContractEpoch>>, readings: seq<Reading>,
      n: nat, known: int)
    requires Readable(fs, logs, readings) && n <= |fs|
    requires forall i :: 0 <= i < |fs| ==> AboveIn(fs[i], logs, readings, known)
    ensures forall e :: e in NewFromAll(fs, logs, readings, n) ==> known < e.startHeight
  {
    hide NewEpochs;
    if n > 0 {
      NewOfAllAbove(fs, logs, readings, n - 1, known);
      assert AboveIn(fs[n - 1], logs, readings, known);
    }
  }

  ghost predicate NotBefore(earlier: seq<Reading>, later: seq<Reading>) {
    forall r, s :: r in earlier && s in later ==> r.blockNumber <= s.blockNumber
  }

  /** The known height never falls as long as the node's block number does not. */
  lemma KnownHeightGrows(start: seq<Fetcher>, logs: seq<seq<ContractEpoch>>, cycles: seq<seq<Reading>>, n: nat,
      before: int, after: int)
    requires LegalCycles(logs, cycles) && 0 < n < |cycles| && InDefinitionOrder(start, |logs|)
    requires forall f :: f in start ==> IsFresh(f)
    requires NotBefore(cycles[n - 1], cycles[n])
    requires before <= after
    ensures KnownHeight(Run(start, logs, cycles, n).fetchers, before) <=
            KnownHeight(Run(start, logs, cycles, n + 1).fetchers, after)
  {
    hide LegalCycles, Run, NewEpochs, NewFromAll, FirstNotStale, Stale;
    var fs, gs := Run(start, logs, cycles, n).fetchers, Run(start, logs, cycles, n + 1).fetchers;
    RunAsksAll(start, logs, cycles, n);
    RunAsksAll(start, logs, cycles, n + 1);
    OneFetcherRemains(start, logs, cycles, n + 1);
    if gs != [] {
      OneFetcherRemains(start, logs, cycles, n);
      var i :| 0 <= i < |fs| && LowestFetch(fs, |fs|) == fs[i].lastFetchHeight.value;
      var j :| 0 <= j < |gs| && LowestFetch(gs, |gs|) == gs[j].lastFetchHeight.value;
      RunIsUpToDate(start, logs, cycles, n, i);
      RunIsUpToDate(start, logs, cycles, n + 1, j);
      ReadingIsLegal(logs, cycles, n - 1);
      ReadingIsLegal(logs, cycles, n);
    } else {
      OneFetcherRemains(start, logs, cycles, n);
    }
  }

  /** The last fetcher is never stale: if there was one at the start, there always is one. */
  lemma {:induction false} OneFetcherRemains(start: seq<Fetcher>, logs: seq<seq<ContractEpoch>>,
      cycles: seq<seq<Reading>>, n: nat)
    requires LegalCycles(logs, cycles) && n <= |cycles| && InDefinitionOrder(start, |logs|)
    ensures Run(start, logs, cycles, n).fetchers == [] <==> start == []
  {
    hide LegalCycles, NewEpochs, NewFromAll, WithoutStale, LegalReadings, InDefinitionOrder, Readable, FetchedAll;
    if n > 0 {
      hide Cycles;
      OneFetcherRemains(start, logs, cycles, n - 1);
      CyclesStep(Progress(start, []), logs, cycles, n, true);
      PoppingLeavesOne(FetchedAll(Run(start, logs, cycles, n - 1).fetchers, logs, cycles[n - 1]));
    }
  }

  lemma PoppingLeavesOne(fs: seq<Fetcher>)
    ensures WithoutStale(fs) == [] <==> fs == []
  {
    if fs != [] {
      assert !Stale(fs, |fs| - 1);
    }
  }

  /** Later cycles do not change what the first ones did. */
  lemma {:induction false} CyclesPrefix(p: Progress, logs: seq<seq<ContractEpoch>>, cycles: seq<seq<Reading>>,
      more: seq<seq<Reading>>, n: nat, popping: bool)
    requires LegalCycles(logs, cycles) && LegalCycles(logs, cycles + more) && n <= |cycles| &&
             InDefinitionOrder(p.fetchers, |logs|)
    ensures Cycles(p, logs, cycles + more, n, popping) == Cycles(p, logs, cycles, n, popping)
  {
    hide LegalCycles, InDefinitionOrder, Cycle, LegalReadings, Readable;
    if n > 0 {
      hide Cycles;
      CyclesPrefix(p, logs, cycles, more, n - 1, popping);
      CyclesStep(p, logs, cycles, n, popping);
      CyclesStep(p, logs, cycles + more, n, popping);
    }
  }

  /** One more cycle extends the run by a step. */
  lemma RunExtends(start: seq<Fetcher>, logs: seq<seq<ContractEpoch>>, cycles: seq<seq<Reading>>,
      readings: seq<Reading>)
    requires LegalCycles(logs, cycles) && LegalCycles(logs, cycles + [readings]) && InDefinitionOrder(start, |logs|)
    ensures Readable(Run(start, logs, cycles, |cycles|).fetchers, logs, readings)
    ensures Run(start, logs, cycles + [readings], |cycles|) == Run(start, logs, cycles, |cycles|)
    ensures Run(start, logs, cycles + [readings], |cycles| + 1) ==
            Cycle(Run(start, logs, cycles, |cycles|), logs, readings, true)
  {
    hide LegalCycles, InDefinitionOrder, Cycle, LegalReadings, Readable, Cycles;
    var p := Progress(start, []);
    CyclesPrefix(p, logs, cycles, [readings], |cycles|, true);
    CyclesStep(p, logs, cycles + [readings], |cycles| + 1, true);
  }
}
