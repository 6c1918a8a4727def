/** Which of a contract's entries an oracle answers with (src/monitor/validators.py). */
module ContractAnswers {
  import opened Basics
  import opened Node
  import opened PrimaryOracle
  import opened ContractEpochs
  import opened EpochCycles

  // ---------------------------------------------------------------------------
  // The epochs of one range decide where no later range has begun
  // ---------------------------------------------------------------------------

  /** The epochs of range `k`, in their order. */
  ghost function OfRange(history: seq<Epoch>, k: int): seq<Epoch> {
    if history == [] then [] else
      OfRange(history[..|history| - 1], k) +
      if history[|history| - 1].definitionIndex == k then [history[|history| - 1]] else []
  }

  lemma {:induction false} OfRangeOfBoth(some: seq<Epoch>, more: seq<Epoch>, k: int)
    ensures OfRange(some + more, k) == OfRange(some, k) + OfRange(more, k)
  {
    if more == [] {
      assert some + more == some;
    } else {
      var n := |more| - 1;
      assert (some + more)[..|some| + n] == some + more[..n];
      OfRangeOfBoth(some, more[..n], k);
    }
  }

  lemma {:induction false} AllOfRange(history: seq<Epoch>, k: int)
    requires forall i :: 0 <= i < |history| ==> history[i].definitionIndex == k
    ensures OfRange(history, k) == history
  {
    if history != [] {
      var n := |history| - 1;
      AllOfRange(history[..n], k);
      assert history == history[..n] + [history[n]];
    }
  }

  lemma {:induction false} NoneOfRange(history: seq<Epoch>, k: int)
    requires forall i :: 0 <= i < |history| ==> history[i].definitionIndex != k
    ensures OfRange(history, k) == []
  {
    if history != [] {
      NoneOfRange(history[..|history| - 1], k);
    }
  }

  lemma {:induction false} RangeDecides(history: seq<Epoch>, h: int, k: int)
    requires forall e :: e in history && k < e.definitionIndex ==> h < e.startHeight
    ensures Scan(OfRange(history, k), h).Some? ==> Scan(history, h) == Scan(OfRange(history, k), h)
    ensures Scan(OfRange(history, k), h).None? && Scan(history, h).Some? ==> Scan(history, h).value.definitionIndex < k
    ensures Scan(OfRange(history, k), h).Some? ==> Scan(OfRange(history, k), h).value.definitionIndex == k
  {
    if history != [] {
      var n := |history| - 1;
      var before, e := history[..n], history[n];
      assert history == before + [e];
      RangeDecides(before, h, k);
      ScanSnoc(before, e, h);
      if e.definitionIndex == k {
        ScanSnoc(OfRange(before, k), e, h);
      } else {
        assert OfRange(before, k) + [] == OfRange(before, k);
      }
    }
  }

  // ---------------------------------------------------------------------------
  // Over a run that keeps all fetchers each contract is fetched in rounds
  // ---------------------------------------------------------------------------

  /** What the first `n` cycles see of contract `k`. */
  ghost function RoundsOf(cycles: seq<seq<Reading>>, n: nat, k: nat): (rounds: seq<Reading>)
    requires n <= |cycles| && forall c :: 0 <= c < n ==> k < |cycles[c]|
    ensures |rounds| == n
    ensures forall c :: 0 <= c < n ==> rounds[c] == cycles[c][k]
  {
    seq(n, c requires 0 <= c < n => cycles[c][k])
  }

  lemma RoundsAreLegal(logs: seq<seq<ContractEpoch>>, cycles: seq<seq<Reading>>, n: nat, k: nat)
    requires LegalCycles(logs, cycles) && n <= |cycles| && k < |logs|
    ensures forall c :: 0 <= c < |cycles| ==> k < |cycles[c]|
    ensures HeightsIncrease(logs[k]) && Growing(RoundsOf(cycles, n, k))
    ensures forall r :: r in RoundsOf(cycles, n, k) ==> r.visible <= |logs[k]|
    ensures n > 0 ==> RoundsOf(cycles, n, k)[..n - 1] == RoundsOf(cycles, n - 1, k)
  {
    forall c | 0 <= c < |cycles|
      ensures k < |cycles[c]| && cycles[c][k].visible <= |logs[k]|
    {
      assert LegalReadings(logs, cycles[c]);
    }
  }

  /** Of all that a cycle brings in, the epochs of one range are those of its fetcher. */
  lemma {:induction false} NewOfRange(
      fs: seq<Fetcher>, logs: seq<seq<ContractEpoch>>, readings: seq<Reading>, n: nat, i: nat)
    requires Readable(fs, logs, readings) && n <= |fs| && InDefinitionOrder(fs, |logs|) && i < |fs|
    ensures var k := fs[i].definitionIndex;
            OfRange(NewFromAll(fs, logs, readings, n), k) ==
            if i < n then NewEpochs(fs[i], logs[k], readings[k].visible) else []
  {
    hide NewEpochs, OfRange;
    NoneOfRange([], fs[i].definitionIndex);
    if n > 0 {
      var k, m := fs[i].definitionIndex, fs[n - 1].definitionIndex;
      var last := NewEpochs(fs[n - 1], logs[m], readings[m].visible);
      NewOfRange(fs, logs, readings, n - 1, i);
      NewEpochsIndex(fs[n - 1], logs[m], readings[m].visible);
      OfRangeOfBoth(NewFromAll(fs, logs, readings, n - 1), last, k);
      if m == k {
        AllOfRange(last, k);
      } else {
        NoneOfRange(last, k);
      }
    }
  }

  lemma FetchInRounds(f: Fetcher, log: seq<ContractEpoch>, rounds: seq<Reading>)
    requires rounds != [] && forall r :: r in rounds ==> r.visible <= |log|
    ensures var before, last := rounds[..|rounds| - 1], rounds[|rounds| - 1];
            && FetchRounds(f, log, rounds) == Fetch(FetchRounds(f, log, before), log, last)
            && TakenInRounds(f, log, rounds) ==
               TakenInRounds(f, log, before) + NewEpochs(FetchRounds(f, log, before), log, last.visible)
  {
  }

  /** After some rounds of one fetcher, the run that keeps all fetchers has its state and its epochs. */
  ghost predicate HasFetched(
      q: Progress, i: nat, f: Fetcher, log: seq<ContractEpoch>, rounds: seq<Reading>)
    requires forall r :: r in rounds ==> r.visible <= |log|
  {
    && i < |q.fetchers| && q.fetchers[i] == FetchRounds(f, log, rounds)
    && q.fetchers[i].definitionIndex == f.definitionIndex
    && OfRange(q.history, f.definitionIndex) == TakenInRounds(f, log, rounds)
  }

  lemma NothingHasFetched(start: seq<Fetcher>, i: nat, log: seq<ContractEpoch>)
    requires i < |start|
    ensures HasFetched(Progress(start, []), i, start[i], log, [])
  {
    NoneOfRange([], start[i].definitionIndex);
  }

  lemma CycleHasFetched(
      q: Progress, logs: seq<seq<ContractEpoch>>, readings: seq<Reading>, i: nat, f: Fetcher, rounds: seq<Reading>)
    requires Readable(q.fetchers, logs, readings) && InDefinitionOrder(q.fetchers, |logs|)
    requires 0 <= f.definitionIndex < |logs| && forall r :: r in rounds ==> r.visible <= |logs[f.definitionIndex]|
    requires HasFetched(q, i, f, logs[f.definitionIndex], rounds)
    ensures HasFetched(Cycle(q, logs, readings, false), i, f, logs[f.definitionIndex],
                       rounds + [readings[f.definitionIndex]])
  {
    hide FetchRounds, TakenInRounds, NewEpochs, NewFromAll, FetchedAll, OfRange, InDefinitionOrder, Readable;
    var k := f.definitionIndex;
    ReadingIsInLog(q.fetchers, logs, readings, k);
    var more := rounds + [readings[k]];
    assert more[..|more| - 1] == rounds;
    FetchInRounds(f, logs[k], more);
    NewOfRange(q.fetchers, logs, readings, |q.fetchers|, i);
    OfRangeOfBoth(q.history, NewFromAll(q.fetchers, logs, readings, |q.fetchers|), k);
  }

  lemma ReadingIsInLog(fs: seq<Fetcher>, logs: seq<seq<ContractEpoch>>, readings: seq<Reading>, k: nat)
    requires Readable(fs, logs, readings) && k < |logs|
    ensures |readings| == |logs| && readings[k].visible <= |logs[k]|
  {
  }

  lemma {:induction false} KeepingFetchesInRounds(
      start: seq<Fetcher>, logs: seq<seq<ContractEpoch>>, cycles: seq<seq<Reading>>, n: nat, i: nat, k: nat)
    requires LegalCycles(logs, cycles) && n <= |cycles| && InDefinitionOrder(start, |logs|) && i < |start|
    requires k == start[i].definitionIndex && k < |logs|
    requires forall c :: 0 <= c < |cycles| ==> k < |cycles[c]|
    requires forall r :: r in RoundsOf(cycles, n, k) ==> r.visible <= |logs[k]|
    ensures HasFetched(Cycles(Progress(start, []), logs, cycles, n, false), i, start[i], logs[k],
            RoundsOf(cycles, n, k))
  {
    hide LegalCycles, InDefinitionOrder, HasFetched, Cycle, RoundsOf, LegalReadings, Readable;
    var p := Progress(start, []);
    if n == 0 {
      NothingHasFetched(start, i, logs[k]);
    } else {
      RoundsAreLegal(logs, cycles, n, k);
      RoundsAreLegal(logs, cycles, n - 1, k);
      KeepingFetchesInRounds(start, logs, cycles, n - 1, i, k);
      CyclesStep(p, logs, cycles, n, false);
      CycleHasFetched(Cycles(p, logs, cycles, n - 1, false), logs, cycles[n - 1], i, start[i],
          RoundsOf(cycles, n - 1, k));
      assert RoundsOf(cycles, n, k) == RoundsOf(cycles, n - 1, k) + [cycles[n - 1][k]];
    }
  }

  lemma IndexInOrder(fs: seq<Fetcher>, ranges: nat, i: nat)
    requires InDefinitionOrder(fs, ranges) && i < |fs|
    ensures 0 <= fs[i].definitionIndex < ranges
  {
  }

  // ---------------------------------------------------------------------------
  // The last entry that is taken answers
  // ---------------------------------------------------------------------------

  lemma {:induction false} SurvivingAreBelow(f: Fetcher, log: seq<ContractEpoch>, first: nat, n: nat, top: int)
    requires n <= |log| && f.enterHeight <= top && forall m :: 0 <= m < n ==> log[m].height <= top
    ensures forall e :: e in Surviving(f, log, first, n) ==>
                          e.definitionIndex == f.definitionIndex && e.startHeight <= top
  {
    if n > 0 {
      SurvivingAreBelow(f, log, first, n - 1, top);
    }
  }

  /**
   * Entry `j` is taken and starts at or below `h`, and none after it does both: so it is the answer at `h`.
   */
  lemma {:induction false} LastTakenAnswers(f: Fetcher, log: seq<ContractEpoch>, first: nat, n: nat, h: int, j: nat)
    requires HeightsIncrease(log) && j < n <= |log|
    requires log[j].height <= h && f.enterHeight <= h && (j < first || f.enterHeight < log[j].height)
    requires forall m :: j < m < n ==> h < log[m].height || (first <= m && log[m].height <= f.enterHeight)
    ensures Scan(Surviving(f, log, first, n), h) == Some(Clamped(f, log[j]))
  {
    hide Scan;
    var before := Surviving(f, log, first, n - 1);
    if j < n - 1 {
      LastTakenAnswers(f, log, first, n - 1, h, j);
      if n - 1 < first || f.enterHeight < log[n - 1].height {
        ScanSnoc(before, Clamped(f, log[n - 1]), h);
      } else {
        assert before + [] == before;
      }
    } else {
      SurvivingAreBelow(f, log, first, j, Max(log[j].height, f.enterHeight));
      LatestAnswers(before, Clamped(f, log[j]), h);
    }
  }

  /** An epoch that starts no earlier than all epochs before it, all of its own range, answers from then on. */
  lemma LatestAnswers(before: seq<Epoch>, e: Epoch, h: int)
    requires e.startHeight <= h
    requires forall x :: x in before ==> x.definitionIndex == e.definitionIndex && x.startHeight <= e.startHeight
    ensures Scan(before + [e], h) == Some(e)
  {
    ScanSnoc(before, e, h);
    hide Scan, InCharge;
    var i := ScanPicksTheEpochInCharge(before, h);
  }

  lemma {:induction false} NoneTakenAnswers(f: Fetcher, log: seq<ContractEpoch>, first: nat, n: nat, h: int)
    requires n <= |log| && forall e :: e in log ==> h < e.height
    ensures Scan(Surviving(f, log, first, n), h).None?
  {
    if n > 0 {
      var before := Surviving(f, log, first, n - 1);
      NoneTakenAnswers(f, log, first, n - 1, h);
      assert log[n - 1] in log && before + [] == before;
      ScanSnoc(before, Clamped(f, log[n - 1]), h);
    }
  }

  // ---------------------------------------------------------------------------
  // Whatever starts at or below the known height has been shown
  // ---------------------------------------------------------------------------

  lemma EntryIsShown(
      start: seq<Fetcher>, logs: seq<seq<ContractEpoch>>, cycles: seq<seq<Reading>>, blockNumber: int, i: nat, j: nat,
      h: int)
    requires LegalCycles(logs, cycles) && cycles != [] && InDefinitionOrder(start, |logs|) && i < |start|
    requires forall f :: f in start ==> IsFresh(f)
    requires 0 <= start[i].definitionIndex < |logs|
    requires h <= KnownHeight(Run(start, logs, cycles, |cycles|).fetchers, blockNumber)
    requires forall e :: e in Run(start, logs, cycles, |cycles|).history ==>
                           start[i].definitionIndex < e.definitionIndex ==> h < e.startHeight
    requires j < |logs[start[i].definitionIndex]| && logs[start[i].definitionIndex][j].height <= h
    ensures start[i].definitionIndex < |cycles[|cycles| - 1]|
    ensures j < cycles[|cycles| - 1][start[i].definitionIndex].visible
  {
    hide LegalCycles, Cycles, CaughtUp, Scan, AnswersAlike, EarliestKnown, NewEpochs, FetchRounds, TakenInRounds;
    var n, k := |cycles|, start[i].definitionIndex;
    var p := Progress(start, []);
    var pop, keep := Cycles(p, logs, cycles, n, true), Cycles(p, logs, cycles, n, false);
    var d := RunsCorrespond(p, logs, cycles, n);
    ReadingIsLegal(logs, cycles, n - 1);
    RoundsAreLegal(logs, cycles, n, k);
    KeepingFetchesInRounds(start, logs, cycles, n, i, k);
    if i < d {
      OutdatedIsShown(keep.fetchers[i], logs[k], cycles[n - 1][k].visible, pop.history, j, h);
    } else {
      assert pop.fetchers[i - d] == keep.fetchers[i];
      RunIsUpToDate(start, logs, cycles, n, i - d);
      RunAsksAll(start, logs, cycles, n);
    }
  }

  /** What an outdated fetcher has not been shown starts no earlier than a later range's epoch. */
  lemma OutdatedIsShown(f: Fetcher, log: seq<ContractEpoch>, shown: nat, history: seq<Epoch>, j: nat, h: int)
    requires Outdated(f, log, shown, history)
    requires forall e :: e in history && f.definitionIndex < e.definitionIndex ==> h < e.startHeight
    requires j < |log| && log[j].height <= h
    ensures j < shown
  {
  }
}
