/** What the invariants of the running monitor mean for those who read its reports. */
module Guarantees {
  import opened Basics
  import opened Node
  import opened PrimaryOracle
  import opened ContractEpochs
  import opened ContractAnswers
  import opened EpochCycles
  import opened EpochFetcher
  import opened DefinitionRanges
  import BlockDB
  import opened BlockSync
  import BlockFetcher
  import opened SkipReporter
  import opened OfflineReporter
  import EquivocationReporter
  import opened Detection
  import opened Monitor

  // ---------------------------------------------------------------------------
  // The oracle's answers
  // ---------------------------------------------------------------------------

  /** Epochs known beforehand stay in front of what a run brings in. */
  lemma {:induction false} HistoryInFront(
      front: seq<Epoch>, start: seq<Fetcher>, logs: seq<seq<ContractEpoch>>, cycles: seq<seq<Reading>>, n: nat,
      popping: bool)
    requires LegalCycles(logs, cycles) && n <= |cycles| && InDefinitionOrder(start, |logs|)
    ensures var with, without := Cycles(Progress(start, front), logs, cycles, n, popping),
            Cycles(Progress(start, []), logs, cycles, n, popping);
            with.fetchers == without.fetchers && with.history == front + without.history
  {
    hide LegalCycles, InDefinitionOrder, NewFromAll, FetchedAll, WithoutStale, LegalReadings, Readable;
    if n > 0 {
      hide Cycles;
      HistoryInFront(front, start, logs, cycles, n - 1, popping);
      CyclesStep(Progress(start, front), logs, cycles, n, popping);
      CyclesStep(Progress(start, []), logs, cycles, n, popping);
    } else {
      assert front + [] == front;
    }
  }

  /** The epochs handed over if every contract were asked in every cycle. */
  ghost function HistoryOfAll(
      ranges: seq<DefinitionRange>, start: seq<Fetcher>, logs: seq<seq<ContractEpoch>>,
      cycles: seq<seq<Reading>>): seq<Epoch>
    requires HasStaticLists(ranges) && LegalCycles(logs, cycles) && InDefinitionOrder(start, |logs|)
  {
    Cycles(Progress(start, StaticEpochs(ranges, |ranges|)), logs, cycles, |cycles|, false).history
  }

  /**
   * The running monitor's oracle answers every height as if every contract were asked in every
   * cycle, although it has stopped asking the stale ones.
   */
  lemma AnswersAsIfNoneWereDropped(app: App, h: int)
    requires app.Valid()
    ensures var fetcher, oracle := app.epochFetcher, app.oracle;
            && IsFed(app.ranges, fetcher.start, fetcher.logs, fetcher.cycles, oracle.added)
            && ValidatorsAt(oracle.added, oracle.maxHeight, h) ==
               ValidatorsAt(HistoryOfAll(app.ranges, fetcher.start, fetcher.logs, fetcher.cycles), oracle.maxHeight, h)
  {
    hide ValidatorsAt, EpochFetcher.Valid, BlockFetcher.BlockFetcher.Valid, PrimaryOracle.Valid, SkipReporter.Valid;
    hide OfflineReporter.Valid;
    hide HistoryOfAll, Complete, HasStaticLists, LegalCycles, InDefinitionOrder, Run, StaticEpochs, StartFetchers;
    FedAsIfNoneWereDropped(app.ranges, app.epochFetcher.start, app.epochFetcher.logs, app.epochFetcher.cycles,
                           app.oracle.added, app.oracle.maxHeight, h);
  }

  lemma FedAsIfNoneWereDropped(
      ranges: seq<DefinitionRange>, start: seq<Fetcher>, logs: seq<seq<ContractEpoch>>, cycles: seq<seq<Reading>>,
      history: seq<Epoch>, maxHeight: int, h: int)
    requires IsFed(ranges, start, logs, cycles, history)
    ensures ValidatorsAt(history, maxHeight, h) == ValidatorsAt(HistoryOfAll(ranges, start, logs, cycles), maxHeight, h)
    ensures Scan(history, h) == Scan(HistoryOfAll(ranges, start, logs, cycles), h)
  {
    hide Scan, StaticEpochs, StartFetchers, LegalCycles, InDefinitionOrder, Cycles, Build, Lookup, Complete;
    hide HasStaticLists;
    var p := Progress(start, StaticEpochs(ranges, |ranges|));
    var all := Cycles(p, logs, cycles, |cycles|, false).history;
    CompleteMeans(ranges);
    StartFetchersAreFresh(ranges, |ranges|);
    HistoryInFront(p.history, start, logs, cycles, |cycles|, true);
    forall g: int
      ensures Scan(history, g) == Scan(all, g)
    {
      PoppingIsInvisible(p, logs, cycles, g);
      StaircaseRefinesScan(history, g);
      StaircaseRefinesScan(all, g);
    }
    AlikeWhenEmpty(history, all);
  }

  /** Histories that answer every height alike are both empty or both not. */
  lemma AlikeWhenEmpty(some: seq<Epoch>, all: seq<Epoch>)
    requires forall h :: Scan(some, h) == Scan(all, h)
    ensures some == [] <==> all == []
  {
    hide Scan;
    if some != [] {
      var i := ScanPicksTheEpochInCharge(some, some[0].startHeight);
      var j := ScanPicksTheEpochInCharge(all, some[0].startHeight);
    }
    if all != [] {
      var i := ScanPicksTheEpochInCharge(some, all[0].startHeight);
      var j := ScanPicksTheEpochInCharge(all, all[0].startHeight);
    }
  }

  // ---------------------------------------------------------------------------
  // Static ranges
  // ---------------------------------------------------------------------------

  lemma {:induction false} NewArePlaced(ranges: seq<DefinitionRange>, f: Fetcher, log: seq<ContractEpoch>, n: nat)
    requires n <= |log| && ForRanges([f], ranges)
    ensures forall e :: e in NewEpochs(f, log, n) ==> Placed(ranges, e)
  {
    assert [f][0] == f;
    if n > 0 {
      NewArePlaced(ranges, f, log, n - 1);
    }
  }

  lemma {:induction false} AllNewArePlaced(
      ranges: seq<DefinitionRange>, fs: seq<Fetcher>, logs: seq<seq<ContractEpoch>>, readings: seq<Reading>, n: nat)
    requires Readable(fs, logs, readings) && n <= |fs| && ForRanges(fs, ranges)
    ensures forall e :: e in NewFromAll(fs, logs, readings, n) ==> Placed(ranges, e)
  {
    hide NewEpochs, Placed;
    if n > 0 {
      AllNewArePlaced(ranges, fs, logs, readings, n - 1);
      var k := fs[n - 1].definitionIndex;
      assert ForRanges([fs[n - 1]], ranges);
      NewArePlaced(ranges, fs[n - 1], logs[k], readings[k].visible);
    }
  }

  lemma FetchersStayForRanges(ranges: seq<DefinitionRange>, fs: seq<Fetcher>, logs: seq<seq<ContractEpoch>>,
      readings: seq<Reading>)
    requires Readable(fs, logs, readings) && ForRanges(fs, ranges)
    ensures ForRanges(WithoutStale(FetchedAll(fs, logs, readings)), ranges)
    ensures ForRanges(FetchedAll(fs, logs, readings), ranges)
  {
    hide NewEpochs, FetchedAll, FirstNotStale, Readable;
    var gs := FetchedAll(fs, logs, readings);
    forall i | 0 <= i < |gs|
      ensures gs[i].definitionIndex == fs[i].definitionIndex && gs[i].enterHeight == fs[i].enterHeight &&
              gs[i].contract == fs[i].contract
    {
    }
  }

  /** Whatever a run brings in belongs to a contract's range and does not start before it. */
  lemma {:induction false} RunIsPlaced(
      ranges: seq<DefinitionRange>, start: seq<Fetcher>, logs: seq<seq<ContractEpoch>>, cycles: seq<seq<Reading>>,
      n: nat, popping: bool)
    requires LegalCycles(logs, cycles) && n <= |cycles| && InDefinitionOrder(start, |logs|) && ForRanges(start, ranges)
    ensures ForRanges(Cycles(Progress(start, []), logs, cycles, n, popping).fetchers, ranges)
    ensures forall e :: e in Cycles(Progress(start, []), logs, cycles, n, popping).history ==> Placed(ranges, e)
  {
    hide LegalCycles, InDefinitionOrder, NewFromAll, FetchedAll, WithoutStale, LegalReadings, Readable, ForRanges;
    hide Placed;
    if n > 0 {
      hide Cycles;
      RunIsPlaced(ranges, start, logs, cycles, n - 1, popping);
      CyclesStep(Progress(start, []), logs, cycles, n, popping);
      var q := Cycles(Progress(start, []), logs, cycles, n - 1, popping);
      FetchersStayForRanges(ranges, q.fetchers, logs, cycles[n - 1]);
      AllNewArePlaced(ranges, q.fetchers, logs, cycles[n - 1], |q.fetchers|);
    }
  }

  /**
   * At every known height the running monitor's oracle answers from no later range than the one the
   * height lies in, and on a static range with exactly that range's list, whatever contracts list.
   */
  lemma AnswersRespectRanges(app: App, h: int, i: nat)
    requires app.Valid() && h <= app.oracle.maxHeight
    requires i < |app.ranges| && Covers(app.ranges[i], h)
    ensures Scan(app.oracle.added, h).Some? ==> Scan(app.oracle.added, h).value.definitionIndex <= i
    ensures !app.ranges[i].isContract ==>
              && app.ranges[i].validators.Some?
              && ValidatorsAt(app.oracle.added, app.oracle.maxHeight, h) == Success(app.ranges[i].validators.value)
  {
    hide EpochFetcher.Valid, BlockFetcher.BlockFetcher.Valid, PrimaryOracle.Valid, SkipReporter.Valid;
    hide OfflineReporter.Valid;
    hide Scan, ValidatorsAt, Covers, Complete, LegalCycles, InDefinitionOrder, Run, StaticEpochs, StartFetchers;
    FedRespectsRanges(app.ranges, app.epochFetcher.start, app.epochFetcher.logs, app.epochFetcher.cycles,
                      app.oracle.added, app.oracle.maxHeight, h, i);
  }

  lemma FedRespectsRanges(
      ranges: seq<DefinitionRange>, start: seq<Fetcher>, logs: seq<seq<ContractEpoch>>, cycles: seq<seq<Reading>>,
      history: seq<Epoch>, maxHeight: int, h: int, i: nat)
    requires IsFed(ranges, start, logs, cycles, history)
    requires i < |ranges| && Covers(ranges[i], h) && h <= maxHeight
    ensures Scan(history, h).Some? ==> Scan(history, h).value.definitionIndex <= i
    ensures !ranges[i].isContract ==> ValidatorsAt(history, maxHeight, h) == Success(ranges[i].validators.value)
  {
    hide StaticEpochs, StartFetchers, LegalCycles, InDefinitionOrder, Cycles, Complete, HasStaticLists, Placed;
    hide ForRanges, Covers, Scan;
    CompleteMeans(ranges);
    StartFetchersAreFresh(ranges, |ranges|);
    RunIsPlaced(ranges, start, logs, cycles, |cycles|, true);
    StaticEpochsArePlaced(ranges, |ranges|);
    StaticRangeAnswers(ranges, history, h, i);
    NothingToScan(h);
  }

  lemma NothingToScan(h: int)
    ensures Scan([], h).None?
  {
  }

  // ---------------------------------------------------------------------------
  // Contract ranges
  // ---------------------------------------------------------------------------

  /** How many entries of contract `k` the first cycle that saw any of them saw. */
  ghost function FirstShown(logs: seq<seq<ContractEpoch>>, cycles: seq<seq<Reading>>, k: nat): nat
    requires LegalCycles(logs, cycles) && k < |logs|
  {
    RoundsAreLegal(logs, cycles, |cycles|, k);
    FirstSeen(RoundsOf(cycles, |cycles|, k))
  }

  /** Where no later range has begun, the epochs of a contract's range are the entries that its fetcher took. */
  lemma RangeOfAll(
      ranges: seq<DefinitionRange>, start: seq<Fetcher>, logs: seq<seq<ContractEpoch>>, cycles: seq<seq<Reading>>,
      i: nat, k: nat)
    requires Complete(ranges) && HasStaticLists(ranges) && start == StartFetchers(ranges, |ranges|)
    requires LegalCycles(logs, cycles) && InDefinitionOrder(start, |logs|)
    requires i < |start| && start[i].definitionIndex == k < |logs| && k < |ranges| && ranges[k].isContract
    ensures forall c :: 0 <= c < |cycles| ==> k < |cycles[c]|
    ensures var rounds := RoundsOf(cycles, |cycles|, k);
            && FirstSeen(rounds) <= LastSeen(rounds) <= |logs[k]| && (FirstSeen(rounds) == 0 ==> LastSeen(rounds) == 0)
            && OfRange(HistoryOfAll(ranges, start, logs, cycles), k) ==
               Surviving(start[i], logs[k], FirstSeen(rounds), LastSeen(rounds))
  {
    hide StaticEpochs, LegalCycles, InDefinitionOrder, Cycles, Complete, HasStaticLists, StartFetchers, OfRange;
    hide FetchRounds, TakenInRounds, HeightsIncrease, Growing, Surviving, CaughtUp;
    CompleteMeans(ranges);
    StartFetchersAreFresh(ranges, |ranges|);
    RoundsAreLegal(logs, cycles, |cycles|, k);
    KeepingFetchesInRounds(start, logs, cycles, |cycles|, i, k);
    assert start[i] in start;
    RoundsTakeTheSurviving(start[i], logs[k], RoundsOf(cycles, |cycles|, k));
    LastIsListed(logs[k], RoundsOf(cycles, |cycles|, k));
    var fixed := StaticEpochs(ranges, |ranges|);
    HistoryInFront(fixed, start, logs, cycles, |cycles|, false);
    StaticEpochsAreStatic(ranges, |ranges|);
    forall j | 0 <= j < |fixed|
      ensures fixed[j].definitionIndex != k
    {
      assert fixed[j] in fixed;
    }
    NoneOfRange(fixed, k);
    OfRangeOfBoth(fixed, Cycles(Progress(start, []), logs, cycles, |cycles|, false).history, k);
  }

  lemma LastIsListed(log: seq<ContractEpoch>, rounds: seq<Reading>)
    requires forall r :: r in rounds ==> r.visible <= |log|
    ensures LastSeen(rounds) <= |log|
  {
  }

  /** No epoch of a later range starts at or below a height of the `k`th range. */
  lemma LaterRangesStartAbove(ranges: seq<DefinitionRange>, epochs: seq<Epoch>, h: int, k: nat)
    requires Complete(ranges) && k < |ranges| && Covers(ranges[k], h)
    requires forall e :: e in epochs ==> Placed(ranges, e)
    ensures forall e :: e in epochs && k < e.definitionIndex ==> h < e.startHeight
  {
    hide Complete;
    OtherRangesDoNotCover(ranges, h, k);
  }

  lemma AllOfAllArePlaced(
      ranges: seq<DefinitionRange>, start: seq<Fetcher>, logs: seq<seq<ContractEpoch>>, cycles: seq<seq<Reading>>)
    requires Complete(ranges) && HasStaticLists(ranges) && start == StartFetchers(ranges, |ranges|)
    requires LegalCycles(logs, cycles) && InDefinitionOrder(start, |logs|)
    ensures forall e :: e in HistoryOfAll(ranges, start, logs, cycles) ==> Placed(ranges, e)
    ensures forall e :: e in Run(start, logs, cycles, |cycles|).history ==> Placed(ranges, e)
  {
    hide StaticEpochs, LegalCycles, InDefinitionOrder, Cycles, Complete, HasStaticLists, StartFetchers, Placed;
    hide ForRanges;
    CompleteMeans(ranges);
    StartFetchersAreFresh(ranges, |ranges|);
    HistoryInFront(StaticEpochs(ranges, |ranges|), start, logs, cycles, |cycles|, false);
    RunIsPlaced(ranges, start, logs, cycles, |cycles|, false);
    RunIsPlaced(ranges, start, logs, cycles, |cycles|, true);
    StaticEpochsArePlaced(ranges, |ranges|);
  }

  /** The entry that answers where `j` is the last one that starts at or below the height. */
  ghost function Answering(enterHeight: int, log: seq<ContractEpoch>, first: nat, j: nat): int
    requires j < |log|
  {
    if j < first || enterHeight < log[j].height then j else first - 1
  }

  /** Of the entries that rounds took, the answering one is in charge. */
  lemma TakenAnswers(f: Fetcher, log: seq<ContractEpoch>, rounds: seq<Reading>, h: int, j: nat)
    requires HeightsIncrease(log) && rounds != [] && j < rounds[|rounds| - 1].visible <= |log|
    requires FirstSeen(rounds) <= LastSeen(rounds) && (FirstSeen(rounds) == 0 ==> LastSeen(rounds) == 0)
    requires f.enterHeight <= h && log[j].height <= h && (j + 1 < |log| ==> h < log[j + 1].height)
    ensures 0 < FirstSeen(rounds) && LastSeen(rounds) <= |log|
    ensures var a := Answering(f.enterHeight, log, FirstSeen(rounds), j);
            && 0 <= a <= j
            && Scan(Surviving(f, log, FirstSeen(rounds), LastSeen(rounds)), h) == Some(Clamped(f, log[a]))
  {
    hide FirstSeen, Surviving, Scan;
    var first, last := FirstSeen(rounds), LastSeen(rounds);
    var a := Answering(f.enterHeight, log, first, j);
    LastTakenAnswers(f, log, first, last, h, a);
  }

  lemma RangeIsEntered(range: DefinitionRange, h: int)
    requires Covers(range, h)
    ensures range.enterHeight <= h
  {
  }

  lemma FedFollowsContract(
      ranges: seq<DefinitionRange>, start: seq<Fetcher>, logs: seq<seq<ContractEpoch>>, cycles: seq<seq<Reading>>,
      history: seq<Epoch>, blockNumber: int, h: int, k: nat, j: nat)
    requires IsFed(ranges, start, logs, cycles, history) && cycles != [] && |logs| == |ranges|
    requires h <= KnownHeight(Run(start, logs, cycles, |cycles|).fetchers, blockNumber)
    requires k < |ranges| && ranges[k].isContract && Covers(ranges[k], h)
    requires j < |logs[k]| && logs[k][j].height <= h && (j + 1 < |logs[k]| ==> h < logs[k][j + 1].height)
    ensures 0 < FirstShown(logs, cycles, k)
    ensures var a := Answering(ranges[k].enterHeight, logs[k], FirstShown(logs, cycles, k), j);
            && 0 <= a <= j
            && Scan(history, h).Some? && Scan(history, h).value.validators == logs[k][a].validators
  {
    hide Scan, StaticEpochs, LegalCycles, InDefinitionOrder, Cycles, Complete, HasStaticLists, StartFetchers, Placed;
    hide OfRange, Surviving, KnownHeight, Covers, HistoryOfAll, FirstSeen, LastSeen, HeightsIncrease, Run, RoundsOf;
    CompleteMeans(ranges);
    StartFetchersAreFresh(ranges, |ranges|);
    var i := StartFetcherOf(ranges, |ranges|, k);
    FedAsIfNoneWereDropped(ranges, start, logs, cycles, history, h, h);
    AllOfAllArePlaced(ranges, start, logs, cycles);
    LaterRangesStartAbove(ranges, Run(start, logs, cycles, |cycles|).history, h, k);
    LaterRangesStartAbove(ranges, HistoryOfAll(ranges, start, logs, cycles), h, k);
    EntryIsShown(start, logs, cycles, blockNumber, i, j, h);
    RangeOfAll(ranges, start, logs, cycles, i, k);
    RoundsAreLegal(logs, cycles, |cycles|, k);
    RangeDecides(HistoryOfAll(ranges, start, logs, cycles), h, k);
    RangeIsEntered(ranges[k], h);
    TakenAnswers(start[i], logs[k], RoundsOf(cycles, |cycles|, k), h, j);
  }

  /** The first round that saw anything. */
  lemma {:induction false} FirstRound(rounds: seq<Reading>) returns (c: nat)
    requires FirstSeen(rounds) > 0
    ensures c < |rounds| && rounds[c].visible == FirstSeen(rounds)
    ensures forall d :: 0 <= d < c ==> rounds[d].visible == 0
  {
    c := |rounds| - 1;
    if FirstSeen(rounds[..c]) > 0 {
      c := FirstRound(rounds[..c]);
    } else {
      NothingSeen(rounds[..c]);
    }
  }

  lemma {:induction false} NothingSeen(rounds: seq<Reading>)
    requires FirstSeen(rounds) == 0
    ensures forall d :: 0 <= d < |rounds| ==> rounds[d].visible == 0
  {
    if rounds != [] {
      NothingSeen(rounds[..|rounds| - 1]);
    }
  }

  lemma FedFollowsFirstShown(
      ranges: seq<DefinitionRange>, start: seq<Fetcher>, logs: seq<seq<ContractEpoch>>, cycles: seq<seq<Reading>>,
      history: seq<Epoch>, blockNumber: int, h: int, k: nat, j: nat) returns (c: nat)
    requires IsFed(ranges, start, logs, cycles, history) && cycles != [] && |logs| == |ranges|
    requires h <= KnownHeight(Run(start, logs, cycles, |cycles|).fetchers, blockNumber)
    requires k < |ranges| && ranges[k].isContract && Covers(ranges[k], h)
    requires j < |logs[k]| && logs[k][j].height <= h && (j + 1 < |logs[k]| ==> h < logs[k][j + 1].height)
    ensures c < |cycles| && (forall d :: 0 <= d <= c ==> k < |cycles[d]|) && 0 < cycles[c][k].visible <= |logs[k]|
    ensures forall d :: 0 <= d < c ==> cycles[d][k].visible == 0
    ensures Scan(history, h).Some?
    ensures Scan(history, h).value.validators ==
            logs[k][if ranges[k].enterHeight < logs[k][j].height || j < cycles[c][k].visible then j
                    else cycles[c][k].visible - 1].validators
  {
    hide Scan, StartFetchers, StaticEpochs, InDefinitionOrder, Cycles, Complete, HasStaticLists, KnownHeight, Covers;
    hide FirstSeen, Run, RoundsOf, LegalCycles, LegalReadings;
    FedFollowsContract(ranges, start, logs, cycles, history, blockNumber, h, k, j);
    RoundsAreLegal(logs, cycles, |cycles|, k);
    c := FirstRound(RoundsOf(cycles, |cycles|, k));
    assert RoundsOf(cycles, |cycles|, k)[c] in RoundsOf(cycles, |cycles|, k);
  }

  /**
   * At a known height of a contract's range the running monitor's oracle answers with the validators of
   * the last entry of the contract that starts at or below it. The one exception: when that entry
   * does not start above the range's own start and was not yet listed in cycle `c`, the first one that
   * saw any entry of this contract, then the last entry seen in cycle `c` answers.
   */
  lemma AnswersFollowContract(app: App, h: int, k: nat, j: nat) returns (c: nat)
    requires app.Valid() && h <= app.oracle.maxHeight
    requires k < |app.ranges| && app.ranges[k].isContract && Covers(app.ranges[k], h)
    requires app.ranges[k].contractAddress.Some?
    requires var log := app.node.Log(app.ranges[k].contractAddress.value);
             j < |log| && log[j].height <= h && (j + 1 < |log| ==> h < log[j + 1].height)
    ensures var log, cycles := app.node.Log(app.ranges[k].contractAddress.value), app.epochFetcher.cycles;
            && c < |cycles| && (forall d :: 0 <= d <= c ==> k < |cycles[d]|) && 0 < cycles[c][k].visible <= |log|
            && (forall d :: 0 <= d < c ==> cycles[d][k].visible == 0)
            && (app.ranges[k].enterHeight < log[j].height || j < cycles[c][k].visible ==>
                  ValidatorsAt(app.oracle.added, app.oracle.maxHeight, h) == Success(log[j].validators))
            && (log[j].height <= app.ranges[k].enterHeight && cycles[c][k].visible <= j ==>
                  ValidatorsAt(app.oracle.added, app.oracle.maxHeight, h) ==
                  Success(log[cycles[c][k].visible - 1].validators))
  {
    hide BlockFetcher.BlockFetcher.Valid, PrimaryOracle.Valid, SkipReporter.Valid, OfflineReporter.Valid;
    hide Scan, Covers, Complete, LegalCycles, InDefinitionOrder, Run, StaticEpochs, StartFetchers, KnownHeight, IsFed;
    var fetcher, oracle := app.epochFetcher, app.oracle;
    var known := HeightIsKnown(app);
    c := FedFollowsFirstShown(app.ranges, fetcher.start, fetcher.logs, fetcher.cycles, oracle.added, known, h, k, j);
    NothingToScan(h);
  }

  /** The oracle's height is the one recorded after some cycle of the run, and the logs are the contracts'. */
  lemma HeightIsKnown(app: App) returns (b: int)
    requires app.Valid()
    ensures var f := app.epochFetcher;
            && LegalCycles(f.logs, f.cycles) && InDefinitionOrder(f.start, |f.logs|) && f.cycles != []
            && app.oracle.maxHeight == KnownHeight(Run(f.start, f.logs, f.cycles, |f.cycles|).fetchers, b)
    ensures |app.epochFetcher.logs| == |app.ranges|
    ensures forall k :: 0 <= k < |app.ranges| && app.ranges[k].contractAddress.Some? ==>
                          app.epochFetcher.logs[k] == app.node.Log(app.ranges[k].contractAddress.value)
  {
    hide BlockFetcher.BlockFetcher.Valid, PrimaryOracle.Valid, SkipReporter.Valid, OfflineReporter.Valid;
    hide Complete, LegalCycles, InDefinitionOrder, Run, KnownHeight, IsFed, SeenBefore, BlockNumberBefore, ForAddresses;
    b :| app.epochFetcher.lastFetchHeight == KnownHeight(app.epochFetcher.States(), b) &&
         BlockNumberBefore(app.node, b, app.node.clock);
  }

  /** As long as a contract lists nothing at or below a known height of its range, an earlier range answers there. */
  lemma SilentContractDoesNotAnswer(app: App, h: int, k: nat)
    requires app.Valid() && h <= app.oracle.maxHeight
    requires k < |app.ranges| && app.ranges[k].isContract && Covers(app.ranges[k], h)
    requires app.ranges[k].contractAddress.Some?
    requires forall e :: e in app.node.Log(app.ranges[k].contractAddress.value) ==> h < e.height
    ensures Scan(app.oracle.added, h).Some? ==> Scan(app.oracle.added, h).value.definitionIndex < k
  {
    hide BlockFetcher.BlockFetcher.Valid, PrimaryOracle.Valid, SkipReporter.Valid, OfflineReporter.Valid;
    hide EpochFetcher.Valid, Scan, Covers, Complete, LegalCycles, InDefinitionOrder, Run, StaticEpochs, StartFetchers;
    hide KnownHeight;
    var fetcher := app.epochFetcher;
    var known := HeightIsKnown(app);
    FedSkipsSilentContract(app.ranges, fetcher.start, fetcher.logs, fetcher.cycles, app.oracle.added, h, k);
  }

  lemma FedSkipsSilentContract(
      ranges: seq<DefinitionRange>, start: seq<Fetcher>, logs: seq<seq<ContractEpoch>>, cycles: seq<seq<Reading>>,
      history: seq<Epoch>, h: int, k: nat)
    requires IsFed(ranges, start, logs, cycles, history) && |logs| == |ranges|
    requires k < |ranges| && ranges[k].isContract && Covers(ranges[k], h)
    requires forall e :: e in logs[k] ==> h < e.height
    ensures Scan(history, h).Some? ==> Scan(history, h).value.definitionIndex < k
  {
    hide Scan, StaticEpochs, LegalCycles, InDefinitionOrder, Cycles, Complete, HasStaticLists, StartFetchers, Placed;
    hide OfRange, Surviving, Covers, HistoryOfAll, FirstSeen, LastSeen, Run, RoundsOf;
    CompleteMeans(ranges);
    StartFetchersAreFresh(ranges, |ranges|);
    var i := StartFetcherOf(ranges, |ranges|, k);
    FedAsIfNoneWereDropped(ranges, start, logs, cycles, history, h, h);
    AllOfAllArePlaced(ranges, start, logs, cycles);
    LaterRangesStartAbove(ranges, HistoryOfAll(ranges, start, logs, cycles), h, k);
    RangeOfAll(ranges, start, logs, cycles, i, k);
    var rounds := RoundsOf(cycles, |cycles|, k);
    NoneTakenAnswers(start[i], logs[k], FirstSeen(rounds), LastSeen(rounds), h);
    RangeDecides(HistoryOfAll(ranges, start, logs, cycles), h, k);
  }

  // ---------------------------------------------------------------------------
  // The reports
  // ---------------------------------------------------------------------------

  /** The same validators are in charge at all known heights above the initial block. */
  ghost predicate AreInCharge(history: seq<Epoch>, maxHeight: int, initial: int, validators: seq<Address>) {
    && validators != []
    && forall h :: initial < h <= maxHeight ==> ValidatorsAt(history, maxHeight, h) == Success(validators)
  }

  /** The calls of the offline reporter are theirs in turn. */
  lemma ConstantValidatorsTakeTurns(
      history: seq<Epoch>, maxHeight: int, initial: int, skips: seq<SkippedProposal>, events: seq<SkipEvent>,
      validators: seq<Address>)
    requires Attributed(history, maxHeight, skips, events) && AreInCharge(history, maxHeight, initial, validators)
    requires forall i :: 0 <= i < |skips| ==> initial < skips[i].blockHeight
    ensures events == EventsOf(validators, skips)
  {
    hide Scan;
    forall i | 0 <= i < |skips|
      ensures events[i] == EventsOf(validators, skips)[i]
    {
      assert IsAttributed(history, maxHeight, skips[i], events[i]);
    }
  }

  /** The height of a missed proposal is that of a later block than the first, and those lie above the initial one. */
  lemma MissedHeightsAreAboveInitial(delivered: seq<Block>, initial: int, grace: nat, skips: seq<SkippedProposal>)
    requires Rooted(delivered, initial) && IsReportOf(Counted(delivered), grace, skips)
    ensures forall i :: 0 <= i < |skips| ==> initial < skips[i].blockHeight
  {
    hide FirstAbove, Counted;
    var blocks := Counted(delivered);
    forall i | 0 <= i < |skips|
      ensures initial < skips[i].blockHeight
    {
      assert skips[i] in skips;
      var j := CountedComesFromSeen(delivered, FirstAbove(blocks, skips[i].step));
    }
  }

  /** What the offline reporter of the running monitor has been called with, and what it has sent. */
  lemma TurnsOfRunningMonitor(app: App, validators: seq<Address>)
    requires app.Valid()
    requires AreInCharge(app.oracle.added, app.oracle.maxHeight, app.blockFetcher.initialBlocknr, validators)
    ensures validators != [] && app.offlineReporter.events == EventsOf(validators, app.skipReporter.reported)
    ensures app.offlineReporter.sent == Reports(app.offlineReporter.events, app.offlineReporter.limits)
    ensures IsReportOf(Counted(Delivered(app.blockFetcher.calls)), GRACE_PERIOD, app.skipReporter.reported)
  {
    hide EpochFetcher.Valid, PrimaryOracle.Valid, EquivocationReporter.EquivocationReporter.Valid, IsFed, ValidatorsAt;
    hide Missed, Open, LatestStep, Counted, Attributed, Reports, Offline, Rooted, Stored, Logged, FromTree, InProgress;
    var blocks, skips := Counted(Delivered(app.blockFetcher.calls)), app.skipReporter.reported;
    MissedHeightsAreAboveInitial(Delivered(app.blockFetcher.calls), app.blockFetcher.initialBlocknr, GRACE_PERIOD,
        skips);
    ConstantValidatorsTakeTurns(app.oracle.added, app.oracle.maxHeight, app.blockFetcher.initialBlocknr, skips,
                                app.offlineReporter.events, validators);
  }

  /**
   * Completeness: with the same validators in charge at all known heights above the initial block, an
   * allowed rate of at most one and any window, the running monitor has reported a validator that never
   * proposes after the first block once a block is seen whose step is more than a grace period and
   * window / n + 1 rounds past the first one; in whatever order blocks arrive, and exactly once.
   */
  lemma IdleValidatorIsReported(app: App, validators: seq<Address>, k: nat) returns (i: nat)
    requires app.Valid()
    requires var limits := app.offlineReporter.limits; limits.allowed <= limits.outOf && 0 < limits.outOf
    requires k < |validators| && AreDistinct(validators)
    requires AreInCharge(app.oracle.added, app.oracle.maxHeight, app.blockFetcher.initialBlocknr, validators)
    requires var blocks, n, w := Counted(Delivered(app.blockFetcher.calls)), |validators|,
             app.offlineReporter.limits.window;
             && blocks != [] && NeverProposes(blocks, n, k)
             && blocks[0].step + GRACE_PERIOD + n * (w / n + 1) < LatestStep(blocks)
    ensures var sent := app.offlineReporter.sent;
            && i < |sent| && sent[i].validator == validators[k]
            && forall j :: 0 <= j < |sent| && j != i ==> sent[j].validator != validators[k]
  {
    hide NeverProposes, AreDistinct, LatestStep, Counted, Delivered, Reports, Offline, AreInCharge, IsReportOf;
    hide App.Valid;
    var events, limits := app.offlineReporter.events, app.offlineReporter.limits;
    TurnsOfRunningMonitor(app, validators);
    DetectedBySteps(Counted(Delivered(app.blockFetcher.calls)), GRACE_PERIOD, app.skipReporter.reported, validators,
        k, limits);
    i := ReportOf(events, limits, validators[k]);
  }

  /** The only report of a validator that was offline. */
  lemma ReportOf(events: seq<SkipEvent>, limits: Limits, v: Address) returns (i: nat)
    requires Offline(events, limits, v)
    ensures var sent := Reports(events, limits);
            && i < |sent| && sent[i].validator == v
            && forall j :: 0 <= j < |sent| && j != i ==> sent[j].validator != v
  {
    hide Reports, Offline;
    OneReportPerOfflineValidator(events, limits);
    i :| 0 <= i < |Reports(events, limits)| && Reports(events, limits)[i].validator == v;
    forall j | 0 <= j < |Reports(events, limits)| && j != i
      ensures Reports(events, limits)[j].validator != v
    {
      assert j < i || i < j;
    }
  }

  /** What was sent after the first calls is the beginning of what has been sent. */
  lemma {:induction false} ReportsOfPrefix(events: seq<SkipEvent>, limits: Limits, j: nat)
    requires j <= |events|
    ensures Reports(events[..j], limits) <= Reports(events, limits)
  {
    hide Exceeds, Offline;
    if j < |events| {
      var m := |events| - 1;
      ReportsOfPrefix(events[..m], limits, j);
      assert events[..m][..j] == events[..j];
    } else {
      assert events[..j] == events;
    }
  }

  /**
   * The same in numbers of skips: of all the skips reported so far, let the first `j` hold window / n + 1
   * of such a validator. Then its report is among those that were sent up to the last of these.
   */
  lemma IdleValidatorIsReportedBySkips(app: App, validators: seq<Address>, k: nat, j: nat) returns (i: nat)
    requires app.Valid()
    requires var limits := app.offlineReporter.limits; limits.allowed <= limits.outOf && 0 < limits.outOf
    requires k < |validators| && AreDistinct(validators)
    requires AreInCharge(app.oracle.added, app.oracle.maxHeight, app.blockFetcher.initialBlocknr, validators)
    requires var blocks := Counted(Delivered(app.blockFetcher.calls));
             blocks != [] && NeverProposes(blocks, |validators|, k)
    requires j <= |app.skipReporter.reported|
    requires app.offlineReporter.limits.window / |validators| + 1 <=
             Number(app.skipReporter.reported[..j], |validators|, k)
    ensures j <= |app.offlineReporter.events|
    ensures i < |Reports(app.offlineReporter.events[..j], app.offlineReporter.limits)| <= |app.offlineReporter.sent|
    ensures app.offlineReporter.sent[i].validator == validators[k]
  {
    hide NeverProposes, AreDistinct, Counted, Delivered, Reports, Offline, AreInCharge, IsReportOf, App.Valid, Number;
    var events, limits := app.offlineReporter.events, app.offlineReporter.limits;
    var skips := app.skipReporter.reported;
    TurnsOfRunningMonitor(app, validators);
    DetectedByNumberOfSkips(Counted(Delivered(app.blockFetcher.calls)), GRACE_PERIOD, skips, validators, k, limits, j);
    EventsPrefix(validators, skips, j);
    i := ReportOf(events[..j], limits, validators[k]);
    ReportsOfPrefix(events, limits, j);
  }

  /** No validator's window time ever exceeds the window by more than one round. */
  lemma WindowTimesAreBounded(app: App, validators: seq<Address>, v: Address, j: nat)
    requires app.Valid() && AreDistinct(validators) && 0 < j <= |app.offlineReporter.events|
    requires AreInCharge(app.oracle.added, app.oracle.maxHeight, app.blockFetcher.initialBlocknr, validators)
    ensures var events, window := app.offlineReporter.events, app.offlineReporter.limits.window;
            WindowTime(events[..j], v, events[j - 1].step - window) <= window + |validators|
  {
    hide AreDistinct, Counted, Delivered, Reports, AreInCharge, Missed, App.Valid, WindowTime;
    var skips := app.skipReporter.reported;
    TurnsOfRunningMonitor(app, validators);
    EventsPrefix(validators, skips, j);
    StepsIncreasePrefix(skips, j);
    WindowTimeIsBounded(validators, skips[..j], v, app.offlineReporter.limits.window);
  }

  /** Every report names steps of a window that ends with one of the reported validator's skips. */
  lemma {:induction false} ReportIsAWindow(events: seq<SkipEvent>, limits: Limits, r: nat) returns (n: nat)
    requires r < |Reports(events, limits)|
    ensures 0 < n <= |events|
    ensures var e := events[n - 1];
            && Reports(events, limits)[r] ==
                OfflineReport(e.validator, StepsOf(Window(events[..n], e.validator, e.step - limits.window)))
            && Exceeds(events[..n], limits)
  {
    hide Window, Exceeds, Offline;
    var m := |events| - 1;
    if r < |Reports(events[..m], limits)| {
      n := ReportIsAWindow(events[..m], limits, r);
      assert events[..m][..n] == events[..n];
    } else {
      n := |events|;
      assert events[..n] == events;
    }
  }

  lemma {:induction false} WindowComesFromEvents(events: seq<SkipEvent>, v: Address, cutoff: int, x: OfflineInterval)
    returns (i: nat)
    requires x in Window(events, v, cutoff)
    ensures i < |events| && events[i] == SkipEvent(v, x.step, x.length) && cutoff <= x.step
  {
    var m := |events| - 1;
    if x in Window(events[..m], v, cutoff) {
      i := WindowComesFromEvents(events[..m], v, cutoff, x);
    } else {
      i := m;
    }
  }

  /** It was the validator's turn, as the oracle says, and nobody proposed in time. */
  ghost predicate IsJustified(history: seq<Epoch>, maxHeight: int, blocks: seq<Block>, v: Address, step: int) {
    exists p: SkippedProposal :: p.step == step && Missed(blocks, GRACE_PERIOD, p) &&
        PrimaryAt(history, maxHeight, p.blockHeight, step) == Success(v)
  }

  /**
   * Soundness: every step listed in any offline report was a turn of the reported validator, according
   * to what the oracle still answers today, and was missed.
   */
  lemma ReportsAreJustified(app: App, r: nat)
    requires app.Valid() && r < |app.offlineReporter.sent|
    ensures var report, blocks := app.offlineReporter.sent[r], Counted(Delivered(app.blockFetcher.calls));
            forall step :: step in report.steps ==>
                             IsJustified(app.oracle.added, app.oracle.maxHeight, blocks, report.validator, step)
  {
    hide PrimaryAt, Missed, Counted, Delivered, Window, Offline, Reports, Exceeds, IsFed, EventOf;
    hide EpochFetcher.Valid, BlockFetcher.BlockFetcher.Valid, PrimaryOracle.Valid;
    hide EquivocationReporter.EquivocationReporter.Valid;
    var blocks, skips := Counted(Delivered(app.blockFetcher.calls)), app.skipReporter.reported;
    var events, limits := app.offlineReporter.events, app.offlineReporter.limits;
    var n := ReportIsAWindow(events, limits, r);
    var e := events[n - 1];
    var w := Window(events[..n], e.validator, e.step - limits.window);
    forall step | step in StepsOf(w)
      ensures IsJustified(app.oracle.added, app.oracle.maxHeight, blocks, e.validator, step)
    {
      var j :| 0 <= j < |w| && w[j].step == step;
      var i := WindowComesFromEvents(events[..n], e.validator, e.step - limits.window, w[j]);
      SkipIsJustified(app.oracle.added, app.oracle.maxHeight, blocks, skips, events, i);
    }
  }

  lemma SkipIsJustified(
      history: seq<Epoch>, maxHeight: int, blocks: seq<Block>, skips: seq<SkippedProposal>, events: seq<SkipEvent>,
      i: nat)
    requires Attributed(history, maxHeight, skips, events) && IsReportOf(blocks, GRACE_PERIOD, skips) && i < |events|
    ensures IsJustified(history, maxHeight, blocks, events[i].validator, events[i].step)
  {
    hide PrimaryAt, Missed;
    assert IsAttributed(history, maxHeight, skips[i], events[i]);
    assert skips[i] in skips;
  }

  /**
   * Whenever two different blocks of one proposer in one step are stored, the monitor has reported them
   * together with all other stored ones of that proposer and step, and with no other block.
   */
  lemma StoredEquivocationsAreReported(app: App, g: Hash, h: Hash)
    requires app.Valid()
    requires var blocks := app.db.blocks;
             && g in blocks && h in blocks && g != h
             && blocks[g].proposer == blocks[h].proposer && blocks[g].step == blocks[h].step
    ensures exists s :: s in app.equivocationReporter.reports && g in s && h in s &&
                        forall x :: x in s <==>
                                      x in app.db.blocks && app.db.blocks[x].proposer == app.db.blocks[g].proposer &&
                                      app.db.blocks[x].step == app.db.blocks[g].step
  {
    hide EpochFetcher.Valid, PrimaryOracle.Valid, SkipReporter.Valid, OfflineReporter.Valid, IsFed, Attributed;
    hide EquivocationReporter.ReportsOf, Stored, Logged;
    var s := EquivocationReporter.EquivocationsAreReported(app.blockFetcher.calls, app.db.blocks, g, h);
  }

  // ---------------------------------------------------------------------------
  // The blocks
  // ---------------------------------------------------------------------------

  /**
   * After a cycle that had nothing left to fetch, the block numbered by the known height on the chain
   * that was canonical when it was asked for, and all its ancestors down to the initial block, have
   * been passed to both reporters.
   */
  lemma SyncedUpToKnownHeight(app: App, asked: nat, n: int)
    requires app.Valid() && app.blockFetcher.IsStoredTarget(asked, Some(app.oracle.maxHeight))
    requires app.blockFetcher.initialBlocknr <= n <= app.oracle.maxHeight
    ensures var b := app.node.CanonicalAt(asked, n);
            && b.Some? && b.value in app.skipReporter.seen
            && exists c :: c in app.equivocationReporter.seen && c.block == b.value
  {
    hide EpochFetcher.Valid, PrimaryOracle.Valid, SkipReporter.Valid, OfflineReporter.Valid;
    hide EquivocationReporter.EquivocationReporter.Valid;
    hide IsFed, Attributed, IsTree, FromTree, Stored, Rooted, Logged, InProgress, AncestorAt;
    var node, known := app.node, app.oracle.maxHeight;
    var target := node.CanonicalAt(asked, known).value;
    AncestorsAreStored(node.tree, app.db.blocks, Delivered(app.blockFetcher.calls), app.blockFetcher.initialBlocknr,
        target.hash, n);
    AncestorOfAncestor(node.tree, node.tip(asked), known, n);
    var b := AncestorAt(node.tree, target.hash, n).value;
    var i :| 0 <= i < |app.blockFetcher.calls| && Delivered(app.blockFetcher.calls)[i] == b;
    assert app.blockFetcher.calls[i] in app.equivocationReporter.seen;
  }

  /** The ancestors of a chain's block are the chain's blocks of their numbers. */
  lemma {:induction false} AncestorOfAncestor(tree: map<Hash, Block>, h: Hash, m: int, n: int)
    requires IsTree(tree) && h in tree && 0 <= n <= m <= tree[h].number
    ensures AncestorAt(tree, h, m).Some? && AncestorAt(tree, AncestorAt(tree, h, m).value.hash, n) ==
            AncestorAt(tree, h, n)
    decreases tree[h].number
  {
    if m < tree[h].number {
      AncestorOfAncestor(tree, tree[h].parentHash, m, n);
    }
  }
}
