/** The monitor itself: how the oracle, the fetchers and the reporters are wired together (src/monitor/main.py). */
module Monitor {
  import opened Basics
  import opened Node
  import opened PrimaryOracle
  import opened ContractEpochs
  import opened EpochCycles
  import opened EpochFetcher
  import opened DefinitionRanges
  import BlockDB
  import opened BlockSync
  import opened BlockFetcher
  import opened SkipReporter
  import opened OfflineReporter
  import EquivocationReporter

  const GRACE_PERIOD: nat := 10
  const MAX_REORG_DEPTH: nat := 1000
  const MAX_NUMBER_OF_BLOCKS := 500

  // ---------------------------------------------------------------------------
  // Answers up to the known height are final
  // ---------------------------------------------------------------------------

  ghost predicate AllAbove(epochs: seq<Epoch>, height: int) {
    forall e :: e in epochs ==> height < e.startHeight
  }

  /** Epochs that start above the known height change no answer up to it, nor does raising that height. */
  lemma AnswersAreFinal(history: seq<Epoch>, more: seq<Epoch>, known: int, later: int, h: int)
    requires AllAbove(more, known) && known <= later && h <= known
    ensures history != [] ==> ValidatorsAt(history + more, later, h) == ValidatorsAt(history, known, h)
    ensures ValidatorsAt(history, known, h).Success? ==>
            ValidatorsAt(history + more, later, h) == ValidatorsAt(history, known, h)
  {
    LaterEpochsAreInvisible(history, more, h);
  }

  /**
   * Each skip report blames the validator that the oracle names for it, with the number of validators
   * in charge at its height.
   */
  ghost predicate Attributed(history: seq<Epoch>, maxHeight: int, skips: seq<SkippedProposal>, events: seq<SkipEvent>) {
    && |skips| == |events|
    && forall i :: 0 <= i < |skips| ==> IsAttributed(history, maxHeight, skips[i], events[i])
  }

  ghost predicate IsAttributed(history: seq<Epoch>, maxHeight: int, p: SkippedProposal, e: SkipEvent) {
    && PrimaryAt(history, maxHeight, p.blockHeight, p.step) == Success(e.validator)
    && e == EventOf(history, maxHeight, e.validator, p)
  }

  /** Every height known before has the answer it had then. */
  ghost predicate AreKept(before: seq<Epoch>, known: int, after: seq<Epoch>, later: int) {
    && known <= later && before <= after
    && forall h :: h <= known && before != [] ==> ValidatorsAt(after, later, h) == ValidatorsAt(before, known, h)
  }

  lemma KeptForLong(first: seq<Epoch>, known: int, second: seq<Epoch>, later: int, third: seq<Epoch>, last: int)
    requires AreKept(first, known, second, later) && AreKept(second, later, third, last)
    ensures AreKept(first, known, third, last) && known <= later <= last
  {
    hide ValidatorsAt;
  }

  lemma AttributionIsFinal(
      history: seq<Epoch>, more: seq<Epoch>, known: int, later: int, skips: seq<SkippedProposal>,
      events: seq<SkipEvent>)
    requires Attributed(history, known, skips, events) && AllAbove(more, known) && known <= later
    ensures Attributed(history + more, later, skips, events)
  {
    hide Scan;
    forall i | 0 <= i < |skips|
      ensures IsAttributed(history + more, later, skips[i], events[i])
    {
      assert IsAttributed(history, known, skips[i], events[i]);
      AnswersAreFinal(history, more, known, later, skips[i].blockHeight);
    }
  }

  /** Skips in the order of their steps make for ordered calls of the offline reporter. */
  lemma AttributedAreOrdered(history: seq<Epoch>, maxHeight: int, skips: seq<SkippedProposal>, events: seq<SkipEvent>)
    requires Attributed(history, maxHeight, skips, events) && StepsIncrease(skips)
    ensures Ordered(events)
  {
    hide PrimaryAt, SetSize;
    assert forall i :: 0 <= i < |events| ==> IsAttributed(history, maxHeight, skips[i], events[i]);
  }

  // ---------------------------------------------------------------------------
  // Missed proposals never lie above the height cap
  // ---------------------------------------------------------------------------

  lemma {:induction false} CountedComesFromSeen(seen: seq<Block>, k: nat) returns (i: nat)
    requires k < |Counted(seen)|
    ensures k <= i < |seen| && seen[i] == Counted(seen)[k]
  {
    var n := |seen| - 1;
    if k < |Counted(seen[..n])| {
      i := CountedComesFromSeen(seen[..n], k);
    } else {
      i := n;
      CountedIsShorter(seen[..n]);
    }
  }

  lemma {:induction false} CountedIsShorter(seen: seq<Block>)
    ensures |Counted(seen)| <= |seen|
  {
    if seen != [] {
      CountedIsShorter(seen[..|seen| - 1]);
    }
  }

  /** The height of a missed proposal is that of a block other than the first, all of which respect the cap. */
  lemma MissedHeightIsKnown(calls: seq<Call>, cap: int, grace: nat, p: SkippedProposal)
    requires Missed(Counted(Delivered(calls)), grace, p) && CallsAtMost(calls, 1, Some(cap))
    ensures 0 <= p.blockHeight <= cap
  {
    hide Counted, FirstAbove;
    var blocks := Counted(Delivered(calls));
    var i := CountedComesFromSeen(Delivered(calls), FirstAbove(blocks, p.step));
    assert calls[i].block == Delivered(calls)[i];
  }

  /** Some epoch rules from the genesis block on. */
  ghost predicate RulesFromGenesis(history: seq<Epoch>) {
    exists e :: e in history && e.startHeight <= 0
  }

  /** An oracle asked for a known height can only fail because nobody ruled that early. */
  lemma OnlyEarlyHeightsFail(history: seq<Epoch>, maxHeight: int, p: SkippedProposal)
    requires 0 <= p.blockHeight <= maxHeight
    requires forall e :: e in history ==> e.validators != []
    ensures var r := PrimaryAt(history, maxHeight, p.blockHeight, p.step);
            r.Failure? ==> r.error in {NoEpochs, BeforeFirstEpoch} && !RulesFromGenesis(history)
    ensures var r := PrimaryAt(history, maxHeight, p.blockHeight, p.step);
            r.Success? ==> ValidatorsAt(history, maxHeight, p.blockHeight).Success?
  {
    var i := ScanPicksTheEpochInCharge(history, p.blockHeight);
  }

  // ---------------------------------------------------------------------------
  // What the oracle has been fed
  // ---------------------------------------------------------------------------

  /** The static epochs first, then all that the run of the fetchers has brought in. */
  ghost predicate IsFed(
      ranges: seq<DefinitionRange>, start: seq<Fetcher>, logs: seq<seq<ContractEpoch>>, cycles: seq<seq<Reading>>,
      history: seq<Epoch>)
  {
    && Complete(ranges) && HasStaticLists(ranges)
    && start == StartFetchers(ranges, |ranges|)
    && LegalCycles(logs, cycles) && InDefinitionOrder(start, |logs|)
    && history == StaticEpochs(ranges, |ranges|) + Run(start, logs, cycles, |cycles|).history
  }

  lemma NothingFetchedYet(node: Node, ranges: seq<DefinitionRange>)
    requires node.WellFormed() && Progresses(node) && Complete(ranges)
    ensures HasStaticLists(ranges)
    ensures var start, logs := StartFetchers(ranges, |ranges|), LogsOf(node, AddressesOf(ranges));
            IsFed(ranges, start, logs, [], StaticEpochs(ranges, |ranges|))
  {
    hide AddressesOf, StartFetchers, LegalCycles, InDefinitionOrder, StaticEpochs, LogsOf, Progresses, IsFresh;
    hide ForRanges;
    assert HasStaticLists(ranges);
    hide Complete, HasStaticLists;
    StartFetchersAreFresh(ranges, |ranges|);
    NoCycles(node, AddressesOf(ranges), LogsOf(node, AddressesOf(ranges)));
  }

  /** A cycle adds to the run's history what it has newly fetched. */
  lemma CycleFeeds(
      node: Node, ranges: seq<DefinitionRange>, addresses: seq<Address>, logs: seq<seq<ContractEpoch>>,
      start: seq<Fetcher>,
      cycles: seq<seq<Reading>>, fs: seq<Fetcher>, known: int, t0: nat, history: seq<Epoch>)
    requires node.WellFormed() && Progresses(node)
    requires InRun(node, addresses, logs, start, cycles, fs, known, t0) && IsFed(ranges, start, logs, cycles, history)
    ensures var readings := ReadingsFrom(node, addresses, fs, t0);
            && Readable(fs, logs, readings)
            && IsFed(ranges, start, logs, cycles + [readings], history + NewFromAll(fs, logs, readings, |fs|))
  {
    hide Progresses, InRun, NewFromAll, ReadingsFrom, Run, Readable, IsFed, LegalCycles, InDefinitionOrder;
    NextCycleIsLegal(node, addresses, logs, start, cycles, fs, known, t0);
    ReadingsFeed(ranges, logs, start, cycles, ReadingsFrom(node, addresses, fs, t0), history);
  }

  lemma NextCycleIsLegal(
      node: Node, addresses: seq<Address>, logs: seq<seq<ContractEpoch>>, start: seq<Fetcher>,
      cycles: seq<seq<Reading>>, fs: seq<Fetcher>, known: int, t0: nat)
    requires node.WellFormed() && Progresses(node)
    requires InRun(node, addresses, logs, start, cycles, fs, known, t0)
    ensures LegalCycles(logs, cycles) && LegalCycles(logs, cycles + [ReadingsFrom(node, addresses, fs, t0)])
    ensures InDefinitionOrder(start, |logs|) && fs == Run(start, logs, cycles, |cycles|).fetchers
  {
    hide Progresses, AreLogs, SeenBefore, LegalCycles, InDefinitionOrder, ReadingsFrom, Run, KnownHeight;
    hide ForAddresses, BlockNumberBefore;
    CyclesStayLegal(node, addresses, logs, cycles, fs, t0);
  }

  lemma ReadingsFeed(
      ranges: seq<DefinitionRange>, logs: seq<seq<ContractEpoch>>, start: seq<Fetcher>,
      cycles: seq<seq<Reading>>, readings: seq<Reading>, history: seq<Epoch>)
    requires IsFed(ranges, start, logs, cycles, history)
    requires LegalCycles(logs, cycles) && LegalCycles(logs, cycles + [readings]) && InDefinitionOrder(start, |logs|)
    ensures var fs := Run(start, logs, cycles, |cycles|).fetchers;
            && Readable(fs, logs, readings)
            && IsFed(ranges, start, logs, cycles + [readings], history + NewFromAll(fs, logs, readings, |fs|))
  {
    hide LegalCycles, InDefinitionOrder, NewFromAll, Run, FetchedAll, WithoutStale, StaticEpochs, Readable;
    hide HasStaticLists;
    hide Complete, StartFetchers;
    RunExtends(start, logs, cycles, readings);
  }

  /** The fetchers' run is not affected by later calls of the node. */
  lemma RunAtLaterCall(
      node: Node, addresses: seq<Address>, logs: seq<seq<ContractEpoch>>, start: seq<Fetcher>,
      cycles: seq<seq<Reading>>,
      fs: seq<Fetcher>, known: int, t0: nat, t1: nat)
    requires node.WellFormed() && InRun(node, addresses, logs, start, cycles, fs, known, t0) && t0 <= t1
    ensures InRun(node, addresses, logs, start, cycles, fs, known, t1)
  {
    hide AreLogs, LegalCycles, InDefinitionOrder, Run, KnownHeight, ForAddresses;
    if cycles != [] {
      var b :| known == KnownHeight(fs, b) && BlockNumberBefore(node, b, t0);
      assert BlockNumberBefore(node, b, t1);
    }
  }

  /** No contract ever lists an epoch without validators. */
  ghost predicate ListsValidators(logs: seq<seq<ContractEpoch>>) {
    forall k, i :: 0 <= k < |logs| && 0 <= i < |logs[k]| ==> logs[k][i].validators != []
  }

  lemma {:induction false} FetchedHaveValidators(fs: seq<Fetcher>, logs: seq<seq<ContractEpoch>>,
      readings: seq<Reading>, n: nat)
    requires Readable(fs, logs, readings) && n <= |fs| && ListsValidators(logs)
    ensures forall e :: e in NewFromAll(fs, logs, readings, n) ==> e.validators != []
  {
    if n > 0 {
      FetchedHaveValidators(fs, logs, readings, n - 1);
      var k := fs[n - 1].definitionIndex;
      NewHaveValidators(fs[n - 1], logs[k], readings[k].visible);
    }
  }

  lemma {:induction false} NewHaveValidators(f: Fetcher, log: seq<ContractEpoch>, n: nat)
    requires n <= |log| && forall i :: 0 <= i < |log| ==> log[i].validators != []
    ensures forall e :: e in NewEpochs(f, log, n) ==> e.validators != []
  {
    if n > 0 {
      NewHaveValidators(f, log, n - 1);
    }
  }

  /** If the genesis block is in a static range, some epoch rules from it on. */
  lemma StaticGenesisRules(ranges: seq<DefinitionRange>, more: seq<Epoch>)
    requires Complete(ranges) && HasStaticLists(ranges) && !ranges[0].isContract
    ensures RulesFromGenesis(StaticEpochs(ranges, |ranges|) + more)
  {
    hide StaticEpochs;
    StaticEpochsArePlaced(ranges, |ranges|);
    assert StaticEpoch(ranges, 0) in StaticEpochs(ranges, |ranges|) + more;
  }

  lemma AttributeNext(
      history: seq<Epoch>, maxHeight: int, skips: seq<SkippedProposal>, events: seq<SkipEvent>, p: SkippedProposal,
      v: Address)
    requires Attributed(history, maxHeight, skips, events)
    requires PrimaryAt(history, maxHeight, p.blockHeight, p.step) == Success(v)
    ensures Attributed(history, maxHeight, skips + [p], events + [EventOf(history, maxHeight, v, p)])
  {
    hide IsAttributed, PrimaryAt, EventOf;
    assert IsAttributed(history, maxHeight, p, EventOf(history, maxHeight, v, p)) by {
      EventIsOf(history, maxHeight, v, p);
    }
  }

  lemma EventIsOf(history: seq<Epoch>, maxHeight: int, v: Address, p: SkippedProposal)
    requires PrimaryAt(history, maxHeight, p.blockHeight, p.step) == Success(v)
    ensures IsAttributed(history, maxHeight, p, EventOf(history, maxHeight, v, p))
  {
    hide PrimaryAt, SetSize;
  }

  /** Who is blamed was in charge, so the number of those in charge is known as well. */
  lemma BlamedHeightIsKnown(history: seq<Epoch>, maxHeight: int, p: SkippedProposal)
    requires PrimaryAt(history, maxHeight, p.blockHeight, p.step).Success?
    ensures ValidatorsAt(history, maxHeight, p.blockHeight).Success?
  {
    hide Scan;
  }

  lemma StepsIncreasePrefix(skips: seq<SkippedProposal>, n: nat)
    requires StepsIncrease(skips) && n <= |skips|
    ensures StepsIncrease(skips[..n])
  {
  }

  lemma NothingAttributedYet(history: seq<Epoch>, maxHeight: int)
    ensures Attributed(history, maxHeight, [], []) && Delivered([]) == []
  {
  }

  lemma StaticListsAreNotEmpty(ranges: seq<DefinitionRange>)
    requires Complete(ranges)
    ensures HasStaticLists(ranges) && Connected(ranges)
    ensures forall e :: e in StaticEpochs(ranges, |ranges|) ==> e.validators != []
  {
    hide StaticEpochs;
    assert HasStaticLists(ranges);
    StaticEpochsArePlaced(ranges, |ranges|);
    StaticEpochsAreStatic(ranges, |ranges|);
  }

  lemma {:induction false} StaticEpochsAreStatic(ranges: seq<DefinitionRange>, n: nat)
    requires n <= |ranges| && HasStaticLists(ranges)
    ensures forall e :: e in StaticEpochs(ranges, n) ==>
                          0 <= e.definitionIndex < n && !ranges[e.definitionIndex].isContract
  {
    if n > 0 {
      StaticEpochsAreStatic(ranges, n - 1);
    }
  }

  // ---------------------------------------------------------------------------
  // The monitor
  // ---------------------------------------------------------------------------

  /**
   * The errors with which a cycle can end the process: the node fails to deliver or its forks are too
   * long; blocks deep below the tip are replaced while they are fetched; a contract lists an epoch
   * without validators; nobody is known to have been in charge that early, which takes a contract in
   * charge of the genesis block; or the offline window is empty.
   */
  ghost predicate CanEnd(node: Node, ranges: seq<DefinitionRange>, limits: Limits, error: Error)
    requires node.WellFormed() && ranges != []
  {
    || error in {NoInitialBlock, BlockNotFound, UnknownForkBase}
    || (error == BranchNotConnected && !NotReplaced(node, MAX_REORG_DEPTH))
    || (error == EmptyValidatorSet && !ListsValidators(LogsOf(node, AddressesOf(ranges))))
    || (error in {NoEpochs, BeforeFirstEpoch} && ranges[0].isContract)
    || (error == DivisionByZero && limits.window == 0)
  }

  class App {
    const node: Node
    const ranges: seq<DefinitionRange>
    const epochFetcher: EpochFetcher
    const oracle: PrimaryOracle
    const db: BlockDB.BlockDB
    const blockFetcher: BlockFetcher
    const skipReporter: SkipReporter
    const offlineReporter: OfflineReporter
    const equivocationReporter: EquivocationReporter.EquivocationReporter

    /** The oracle has been fed what the fetchers have brought in. */
    ghost predicate EpochsAgree()
      reads epochFetcher, epochFetcher.contractEpochFetchers, oracle, node
    {
      && epochFetcher.Valid(node) && oracle.Valid()
      && IsFed(ranges, epochFetcher.start, epochFetcher.logs, epochFetcher.cycles, oracle.added)
    }

    /** There has been a first cycle, and the oracle knows the height that its epochs are known up to. */
    ghost predicate HeightsAgree()
      reads epochFetcher, oracle
    {
      epochFetcher.cycles != [] && oracle.maxHeight == epochFetcher.lastFetchHeight
    }

    /** The reporters have taken in exactly these calls. */
    ghost predicate ReportersAgree(calls: seq<Call>)
      reads oracle, skipReporter, offlineReporter, equivocationReporter
    {
      && skipReporter.Valid() && skipReporter.gracePeriod == GRACE_PERIOD && skipReporter.seen == Delivered(calls)
      && equivocationReporter.Valid() && equivocationReporter.seen == calls
      && offlineReporter.Valid()
      && Attributed(oracle.added, oracle.maxHeight, skipReporter.reported, offlineReporter.events)
    }

    /** Nothing beyond the known height has been fetched, except perhaps the initial block. */
    ghost predicate BlocksAreCapped()
      reads blockFetcher, oracle
    {
      && AtMost(blockFetcher.currentBranch, Some(oracle.maxHeight))
      && CallsAtMost(blockFetcher.calls, 1, Some(oracle.maxHeight))
    }

    ghost predicate Wired() {
      && node.WellFormed() && Complete(ranges)
      && epochFetcher.logs == LogsOf(node, AddressesOf(ranges))
      && blockFetcher.node == node && blockFetcher.db == db && blockFetcher.maxReorgDepth == MAX_REORG_DEPTH
    }

    ghost predicate Valid()
      reads this, epochFetcher, epochFetcher.contractEpochFetchers, oracle, node
      reads db, blockFetcher, skipReporter, offlineReporter, equivocationReporter
    {
      && Wired() && EpochsAgree() && HeightsAgree()
      && blockFetcher.Valid() && blockFetcher.HeadIsTop() && BlocksAreCapped()
      && ReportersAgree(blockFetcher.calls)
    }

    /** Before the oracle has been initialized. */
    ghost predicate IsFresh()
      reads this, epochFetcher, epochFetcher.contractEpochFetchers, oracle, node
      reads db, blockFetcher, skipReporter, offlineReporter, equivocationReporter
    {
      && Wired()
      && epochFetcher.Valid(node) && epochFetcher.cycles == []
      && epochFetcher.start == StartFetchers(ranges, |ranges|)
      && oracle.Valid() && oracle.added == [] && db.blocks == map[]
      && blockFetcher.Valid() && blockFetcher.HeadIsTop()
      && blockFetcher.calls == [] && blockFetcher.currentBranch == []
      && ReportersAgree([]) && skipReporter.reported == [] && offlineReporter.events == []
    }

    /** Initialized, and nothing has been fetched but epochs. */
    ghost predicate IsNew()
      reads this, epochFetcher, epochFetcher.contractEpochFetchers, oracle, node
      reads db, blockFetcher, skipReporter, offlineReporter, equivocationReporter
    {
      Valid() && |epochFetcher.cycles| == 1 && db.blocks == map[] && blockFetcher.currentBranch == []
    }

    constructor (node: Node, ranges: seq<DefinitionRange>, limits: Limits)
      requires node.WellFormed() && Progresses(node) && Complete(ranges)
      ensures this.node == node && this.ranges == ranges
      ensures Wired() && IsFresh() && offlineReporter.limits == limits
      ensures skipReporter.gracePeriod == 10 && blockFetcher.maxReorgDepth == 1000
      ensures db.blocks == map[] && blockFetcher.currentBranch == []
      ensures fresh(epochFetcher) && fresh(epochFetcher.contractEpochFetchers) && fresh(oracle) && fresh(db)
      ensures fresh(blockFetcher) && fresh(skipReporter) && fresh(offlineReporter) && fresh(equivocationReporter)
    {
      hide Complete, StartFetchers, AddressesOf, LogsOf, InRun, Progresses, Delivered, Attributed, IsTop;
      hide PrimaryOracle.Valid, EpochFetcher.Valid, BlockFetcher.Valid, SkipReporter.Valid, OfflineReporter.Valid;
      hide EquivocationReporter.EquivocationReporter.Valid;
      CompleteMeans(ranges);
      this.node, this.ranges := node, ranges;
      var fetcher := CreateEpochFetcher(ranges, node);  // does not fail for complete ranges
      epochFetcher := fetcher.value;
      oracle := new PrimaryOracle();
      var table := new BlockDB.BlockDB();
      db := table;
      blockFetcher := new BlockFetcher(node, table, MAX_REORG_DEPTH);
      skipReporter := new SkipReporter(GRACE_PERIOD);
      offlineReporter := new OfflineReporter(limits);
      equivocationReporter := new EquivocationReporter.EquivocationReporter();
      new;
      NothingAttributedYet(oracle.added, oracle.maxHeight);
    }

    /** Adds epochs one by one until one of them has no validators. */
    method AddEpochs(epochs: seq<Epoch>) returns (r: Result<()>)
      requires oracle.Valid()
      modifies oracle
      ensures r.Success? <==> forall e :: e in epochs ==> e.validators != []
      ensures r.Failure? ==> r.error == EmptyValidatorSet
      ensures r.Success? ==>
                && oracle.Valid() && oracle.added == old(oracle.added) + epochs
                && oracle.maxHeight == old(oracle.maxHeight)
    {
      hide PrimaryOracle.Valid;
      for i := 0 to |epochs|
        invariant oracle.Valid() && oracle.added == old(oracle.added) + epochs[..i] &&
                  oracle.maxHeight == old(oracle.maxHeight)
        invariant forall e :: e in epochs[..i] ==> e.validators != []
      {
        assert epochs[..i + 1] == epochs[..i] + [epochs[i]];
        var added := oracle.AddEpoch(epochs[i]);
        if added.Failure? {
          assert epochs[i] in epochs;
          return added;
        }
      }
      assert epochs[..|epochs|] == epochs;
      return Success(());
    }

    /** Reads the static epochs and goes through a first cycle of fetching epochs. */
    method InitializePrimaryOracle() returns (r: Result<()>)
      requires IsFresh() && Progresses(node)
      modifies oracle, epochFetcher, epochFetcher.contractEpochFetchers, node
      ensures epochFetcher.IsSuffixOf(old(epochFetcher.contractEpochFetchers))
      ensures |epochFetcher.cycles| == 1
      ensures r.Success? ==> Valid()
      ensures r.Success? ==> old(node.TipAt(node.clock)).number <= oracle.maxHeight
      ensures r.Failure? ==> r.error == EmptyValidatorSet && CanEnd(node, ranges, offlineReporter.limits, r.error)
    {
      hide PrimaryOracle.Valid, EpochFetcher.Valid, BlockFetcher.Valid, SkipReporter.Valid, OfflineReporter.Valid;
      hide EquivocationReporter.EquivocationReporter.Valid;
      hide Complete, IsFed, StartFetchers, AddressesOf, LogsOf, Progresses, Delivered, Attributed, StaticEpochs, IsTop;
      StaticListsAreNotEmpty(ranges);
      NothingFetchedYet(node, ranges);
      var epochs := GetStaticEpochs(ranges);  // neither this nor the next step fails for complete ranges
      assert [] + epochs.value == epochs.value;
      var added := AddEpochs(epochs.value);
      var updated, newEpochs := UpdateEpochs();
      NothingAttributedYet(oracle.added, oracle.maxHeight);
      return updated;
    }

    /** Fetches new epochs, adds them to the oracle and tells it up to which height it knows all of them now. */
    method UpdateEpochs() returns (r: Result<()>, ghost newEpochs: seq<Epoch>)
      requires node.WellFormed() && Progresses(node) && EpochsAgree()
      modifies oracle, epochFetcher, epochFetcher.contractEpochFetchers, node
      ensures epochFetcher.IsSuffixOf(old(epochFetcher.contractEpochFetchers))
      ensures old(node.clock) < node.clock
      ensures r.Failure? ==> r.error == EmptyValidatorSet && !ListsValidators(epochFetcher.logs)
      ensures r.Success? ==> EpochsAgree() && HeightsAgree() && oracle.added == old(oracle.added) + newEpochs
      ensures |epochFetcher.cycles| == |old(epochFetcher.cycles)| + 1
      ensures old(node.TipAt(node.clock)).number <= epochFetcher.lastFetchHeight <= node.TipAt(node.clock).number
      ensures r.Success? && old(epochFetcher.cycles) != [] ==>
                && AllAbove(newEpochs, old(epochFetcher.lastFetchHeight))
                && old(epochFetcher.lastFetchHeight) <= epochFetcher.lastFetchHeight
    {
      hide PrimaryOracle.Valid, IsFed, InRun, Progresses, NewFromAll, ReadingsFrom, Readable;
      CycleFeeds(node, ranges, epochFetcher.addresses, epochFetcher.logs, epochFetcher.start, epochFetcher.cycles,
                 epochFetcher.States(), epochFetcher.lastFetchHeight, node.clock, oracle.added);
      hide EpochFetcher.Valid, ListsValidators;
      ghost var fs := epochFetcher.States();
      ghost var readings := ReadingsFrom(node, epochFetcher.addresses, fs, node.clock);
      if ListsValidators(epochFetcher.logs) {
        FetchedHaveValidators(fs, epochFetcher.logs, readings, |fs|);
      }
      var epochs := epochFetcher.FetchNewEpochs(node);
      newEpochs := epochs;
      r := AddEpochs(epochs);
      if r.Success? {
        oracle.maxHeight := epochFetcher.lastFetchHeight;
      }
    }

    /** Passes on skip reports to the offline reporter. */
    method PassOnSkips(reports: seq<SkipReport>, ghost skips: seq<SkippedProposal>) returns (r: Result<()>)
      requires oracle.Valid() && BlamesPrimaries(oracle, reports) && StepsIncrease(skips + ProposalsOf(reports))
      requires offlineReporter.Valid() && Attributed(oracle.added, oracle.maxHeight, skips, offlineReporter.events)
      modifies offlineReporter
      ensures r.Success? ==> offlineReporter.Valid()
      ensures r.Success? ==> Attributed(oracle.added, oracle.maxHeight, skips + ProposalsOf(reports),
              offlineReporter.events)
      ensures r.Failure? ==> r.error == DivisionByZero && offlineReporter.limits.window == 0
    {
      hide PrimaryOracle.Valid, OfflineReporter.Valid, StepsIncrease, Attributed, PrimaryAt, ValidatorsAt, EventOf;
      hide Ordered;
      hide IsOutOfOrder, KeptIntervals;
      ghost var all := skips + ProposalsOf(reports);
      for i := 0 to |reports|
        invariant offlineReporter.Valid()
        invariant Attributed(oracle.added, oracle.maxHeight, all[..|skips| + i], offlineReporter.events)
      {
        ghost var p, v := reports[i].proposal, reports[i].primary;
        assert all[..|skips| + i + 1] == all[..|skips| + i] + [p];
        AttributeNext(oracle.added, oracle.maxHeight, all[..|skips| + i], offlineReporter.events, p, v);
        StepsIncreasePrefix(all, |skips| + i + 1);
        BlamedHeightIsKnown(oracle.added, oracle.maxHeight, p);
        var passed := offlineReporter.OnSkip(reports[i].primary, reports[i].proposal, oracle);
        AttributedAreOrdered(oracle.added, oracle.maxHeight, all[..|skips| + i + 1], offlineReporter.events);
        if passed.Failure? {
          return Failure(passed.error);
        }
      }
      assert all[..|all|] == all;
      return Success(());
    }

    /** Passes a block on to the reporters, in the order in which they are registered. */
    method PassOn(call: Call, ghost before: seq<Call>) returns (r: Result<()>)
      requires oracle.Valid() && ReportersAgree(before)
      requires CallsAtMost(before + [call], 1, Some(oracle.maxHeight)) &&
               call.block.hash in EquivocationReporter.Group(call)
      modifies skipReporter, offlineReporter, equivocationReporter
      ensures r.Success? ==> ReportersAgree(before + [call])
      ensures r.Failure? ==> IsExcused(r.error)
    {
      hide PrimaryOracle.Valid, SkipReporter.Valid, OfflineReporter.Valid;
      hide EquivocationReporter.EquivocationReporter.Valid;
      hide Attributed, Missed, PrimaryAt, BlamesPrimaries, Delivered, CallsAtMost, StepsIncrease;
      hide Counted;
      DeliveredSnoc(before, call);
      var skipped := skipReporter.OnBlock(call.block, oracle);
      if skipped.Failure? {
        AskedForKnownHeights(before + [call], skipped.error);
        return Failure(skipped.error);
      }
      ReportedInOrder();
      var passed := PassOnSkips(skipped.value, old(skipReporter.reported));
      if passed.Failure? {
        return passed;
      }
      r := equivocationReporter.OnBlock(call);
    }

    /** Passes on the blocks that have been stored since the first `from` calls. */
    method PassOnAll(from: nat) returns (r: Result<()>)
      requires oracle.Valid() && blockFetcher.Valid() && from <= |blockFetcher.calls|
      requires ReportersAgree(blockFetcher.calls[..from])
      requires CallsAtMost(blockFetcher.calls, 1, Some(oracle.maxHeight))
      modifies skipReporter, offlineReporter, equivocationReporter
      ensures r.Success? ==> ReportersAgree(blockFetcher.calls)
      ensures r.Failure? ==> IsExcused(r.error)
    {
      hide PrimaryOracle.Valid, SkipReporter.Valid, OfflineReporter.Valid;
      hide EquivocationReporter.EquivocationReporter.Valid, ReportersAgree;
      hide InSync, InProgress, CallsAtMost, EquivocationReporter.Group, IsExcused;
      ghost var calls := blockFetcher.calls;
      for i := from to |blockFetcher.calls|
        invariant ReportersAgree(calls[..i])
      {
        assert calls[..i + 1] == calls[..i] + [calls[i]];
        CallsAtMostPrefix(calls, i + 1, Some(oracle.maxHeight));
        SyncedCallIsStored(blockFetcher.node.tree, blockFetcher.db.blocks, calls, blockFetcher.head,
            blockFetcher.initialBlocknr, i);
        var passed := PassOn(blockFetcher.calls[i], calls[..i]);
        if passed.Failure? {
          return passed;
        }
      }
      assert calls[..|calls|] == calls;
      return Success(());
    }

    /** Once heights are known, their answers stay the same. */
    twostate predicate AnswersKept()
      reads oracle
    {
      AreKept(old(oracle.added), old(oracle.maxHeight), oracle.added, oracle.maxHeight)
    }

    /** Epochs are updated first, and the height they are known up to limits what blocks are fetched. */
    method RunCycle() returns (r: Result<int>, ghost asked: nat)
      requires Valid() && Progresses(node)
      modifies oracle, epochFetcher, epochFetcher.contractEpochFetchers, node
      modifies db, blockFetcher, skipReporter, offlineReporter, equivocationReporter
      ensures epochFetcher.IsSuffixOf(old(epochFetcher.contractEpochFetchers))
      ensures r.Success? ==> Valid() && AnswersKept() && old(blockFetcher.calls) <= blockFetcher.calls
      ensures |epochFetcher.cycles| == |old(epochFetcher.cycles)| + 1
      // everything up to the block number at the beginning of the cycle is known now, and nothing yet to come
      ensures r.Success? ==> old(node.TipAt(node.clock)).number <= oracle.maxHeight <= node.TipAt(node.clock).number
      ensures r.Success? ==> 0 <= r.value <= 500
      ensures r.Success? && r.value < MAX_NUMBER_OF_BLOCKS ==> blockFetcher.currentBranch == []
      ensures r.Success? ==>
                |db.blocks| + |blockFetcher.currentBranch| ==
                    |old(db.blocks)| + |old(blockFetcher.currentBranch)| + r.value
      ensures r.Success? && r.value == 0 ==>
                && blockFetcher.currentBranch == [] && old(node.clock) <= asked < node.clock
                && blockFetcher.IsStoredTarget(asked, Some(oracle.maxHeight))
      ensures r.Failure? ==> CanEnd(node, ranges, offlineReporter.limits, r.error)
    {
      hide PrimaryOracle.Valid, EpochFetcher.Valid, SkipReporter.Valid, OfflineReporter.Valid;
      hide EquivocationReporter.EquivocationReporter.Valid;
      hide InSync, InProgress, CallsAtMost, AtMost, Attributed, IsFed, Progresses, Delivered, IsExcused, AllAbove;
      hide ValidatorsAt, TargetAt;
      hide IsTop, ListsValidators, LogsOf, NotReplaced, Complete;
      ghost var history, known, calls := oracle.added, oracle.maxHeight, blockFetcher.calls;
      asked := node.clock;
      var updated, newEpochs := UpdateEpochs();
      if updated.Failure? {
        return Failure(updated.error), asked;
      }
      AnswersAreKept(history, newEpochs, known, oracle.maxHeight);
      AttributionIsFinal(history, newEpochs, known, oracle.maxHeight, skipReporter.reported, offlineReporter.events);
      RaisedCap(blockFetcher.currentBranch, calls, known, oracle.maxHeight);
      ghost var t := node.clock;
      r, asked := FetchBlocks();
      TipsGrow(node, t, node.clock);
    }

    /** Fetches blocks up to the known height and passes them on. */
    method FetchBlocks() returns (r: Result<int>, ghost asked: nat)
      requires Valid()
      modifies node, db, blockFetcher, skipReporter, offlineReporter, equivocationReporter
      ensures old(node.clock) <= node.clock
      ensures r.Success? ==> Valid() && old(blockFetcher.calls) <= blockFetcher.calls
      ensures r.Success? ==> 0 <= r.value <= MAX_NUMBER_OF_BLOCKS
      ensures r.Success? && r.value < MAX_NUMBER_OF_BLOCKS ==> blockFetcher.currentBranch == []
      ensures r.Success? ==>
                |db.blocks| + |blockFetcher.currentBranch| ==
                    |old(db.blocks)| + |old(blockFetcher.currentBranch)| + r.value
      ensures r.Success? && r.value == 0 ==>
                && blockFetcher.currentBranch == [] && old(node.clock) <= asked < node.clock
                && blockFetcher.IsStoredTarget(asked, Some(oracle.maxHeight))
      ensures r.Failure? ==> CanEnd(node, ranges, offlineReporter.limits, r.error)
    {
      hide PrimaryOracle.Valid, SkipReporter.Valid, OfflineReporter.Valid;
      hide EquivocationReporter.EquivocationReporter.Valid;
      hide InSync, InProgress, CallsAtMost, AtMost, Attributed, IsFed, Delivered, IsExcused, TargetAt, InRun, FixedTo;
      hide CapOnChain, OnChain;
      hide IsTop, ListsValidators, LogsOf, NotReplaced, Complete;
      ghost var calls, t0 := blockFetcher.calls, node.clock;
      var from := |blockFetcher.calls|;
      r, asked := blockFetcher.FetchAndInsertNewBlocks(MAX_NUMBER_OF_BLOCKS, Some(epochFetcher.lastFetchHeight),
          node.tip(node.clock));
      if r.Failure? {
        return;
      }
      RunAtLaterCall(node, epochFetcher.addresses, epochFetcher.logs, epochFetcher.start, epochFetcher.cycles,
                     epochFetcher.States(), epochFetcher.lastFetchHeight, t0, node.clock);
      CallsStayAtMost(calls, blockFetcher.calls, Some(oracle.maxHeight));
      assert blockFetcher.calls[..from] == calls;
      var passed := PassOnAll(from);
      if passed.Failure? {
        GenesisIsCovered(passed.error);
        r := Failure(passed.error);
      }
    }

    lemma GenesisIsCovered(error: Error)
      requires Wired() && EpochsAgree() && IsExcused(error)
      ensures CanEnd(node, ranges, offlineReporter.limits, error)
    {
      hide PrimaryOracle.Valid, EpochFetcher.Valid, StaticEpochs, RulesFromGenesis, StartFetchers, Run, LegalCycles;
      if !ranges[0].isContract {
        var run := Run(epochFetcher.start, epochFetcher.logs, epochFetcher.cycles, |epochFetcher.cycles|);
        StaticGenesisRules(ranges, run.history);
      }
    }

    /**
     * Any number of cycles: no answer once known ever changes, every fetched block is stored or part of
     * the branch in progress, and the calls of earlier cycles stay as they were.
     */
    method RunCycles(cycles: nat) returns (r: Result<int>)
      requires Valid() && Progresses(node)
      modifies oracle, epochFetcher, epochFetcher.contractEpochFetchers, node
      modifies db, blockFetcher, skipReporter, offlineReporter, equivocationReporter
      ensures epochFetcher.IsSuffixOf(old(epochFetcher.contractEpochFetchers))
      ensures r.Success? ==> Valid() && AnswersKept() && old(blockFetcher.calls) <= blockFetcher.calls
      ensures r.Success? ==> |epochFetcher.cycles| == |old(epochFetcher.cycles)| + cycles
      ensures r.Success? && cycles > 0 ==> old(node.TipAt(node.clock)).number <= oracle.maxHeight
      ensures r.Success? ==> old(oracle.maxHeight) <= oracle.maxHeight
      ensures r.Success? ==>
                |db.blocks| + |blockFetcher.currentBranch| ==
                    |old(db.blocks)| + |old(blockFetcher.currentBranch)| + r.value
      ensures r.Failure? ==> CanEnd(node, ranges, offlineReporter.limits, r.error)
    {
      hide Valid, Progresses, CanEnd, AreKept;
      ValidIsWired();
      ghost var number, history, known := node.TipAt(node.clock).number, oracle.added, oracle.maxHeight;
      NothingLost(history, known);
      var fetched := 0;
      for i := 0 to cycles
        invariant Valid() && old(blockFetcher.calls) <= blockFetcher.calls
        invariant known <= oracle.maxHeight && AreKept(history, known, oracle.added, oracle.maxHeight)
        invariant |epochFetcher.cycles| == |old(epochFetcher.cycles)| + i
        invariant if i == 0 then node.clock == old(node.clock) else number <= oracle.maxHeight
        invariant |db.blocks| + |blockFetcher.currentBranch| ==
                  |old(db.blocks)| + |old(blockFetcher.currentBranch)| + fetched
        invariant epochFetcher.IsSuffixOf(old(epochFetcher.contractEpochFetchers))
      {
        ghost var added, height := oracle.added, oracle.maxHeight;
        var cycle, asked := RunCycle();
        if cycle.Failure? {
          return cycle;
        }
        KeptForLong(history, known, added, height, oracle.added, oracle.maxHeight);
        fetched := fetched + cycle.value;
      }
      return Success(fetched);
    }

    lemma ValidIsWired()
      requires Valid()
      ensures node.WellFormed()
    {
    }

    /** The errors that a block can lead to: nobody was in charge that early, or the offline window is empty. */
    ghost predicate IsExcused(error: Error)
      reads oracle
    {
      || (error in {NoEpochs, BeforeFirstEpoch} && !RulesFromGenesis(oracle.added))
      || (error == DivisionByZero && offlineReporter.limits.window == 0)
    }

    /** The oracle is never asked about a height that it does not know yet. */
    lemma AskedForKnownHeights(calls: seq<Call>, error: Error)
      requires oracle.Valid() && CallsAtMost(calls, 1, Some(oracle.maxHeight))
      requires exists p :: Missed(Counted(Delivered(calls)), GRACE_PERIOD, p) &&
                           PrimaryAt(oracle.added, oracle.maxHeight, p.blockHeight, p.step) == Failure(error)
      ensures IsExcused(error)
    {
      hide Missed, PrimaryAt, Counted, Delivered, CallsAtMost, Build, Represents;
      var p :| Missed(Counted(Delivered(calls)), GRACE_PERIOD, p) &&
               PrimaryAt(oracle.added, oracle.maxHeight, p.blockHeight, p.step) == Failure(error);
      MissedHeightIsKnown(calls, oracle.maxHeight, GRACE_PERIOD, p);
      OnlyEarlyHeightsFail(oracle.added, oracle.maxHeight, p);
    }

    lemma ReportedInOrder()
      requires skipReporter.Valid()
      ensures StepsIncrease(skipReporter.reported)
    {
    }
  }

  /** Reads the multi list and creates the monitor, which goes through its first cycle of fetching epochs. */
  method Start(entries: seq<Entry>, node: Node, limits: Limits) returns (r: Result<App>)
    requires node.WellFormed() && Progresses(node)
    modifies node
    ensures r == Failure(MissingGenesisRange) <==> !HasGenesis(entries)
    ensures r == Failure(EmptyStaticList) <==> HasGenesis(entries) && HasEmptyList(entries)
    ensures r.Success? ==> fresh(r.value) && r.value.IsNew()
    ensures r.Success? ==> r.value.node == node && r.value.offlineReporter.limits == limits
    ensures r.Success? ==> r.value.ranges == RangesOf(SortedByHeight(entries)) != []
    ensures r.Success? ==> old(node.TipAt(node.clock)).number <= r.value.oracle.maxHeight
    ensures r.Success? ==>
              var app := r.value;
              && fresh(app.epochFetcher) && fresh(app.epochFetcher.contractEpochFetchers) && fresh(app.oracle)
              && fresh(app.db) && fresh(app.blockFetcher) && fresh(app.skipReporter) && fresh(app.offlineReporter)
              && fresh(app.equivocationReporter)
    ensures r.Failure? && HasGenesis(entries) && !HasEmptyList(entries) ==>
              var ranges := RangesOf(SortedByHeight(entries));
              ranges != [] && r.error == EmptyValidatorSet && CanEnd(node, ranges, limits, r.error)
  {
    hide HasGenesis, HasEmptyList, RangesOf, SortedByHeight, Progresses, Complete, CanEnd;
    hide App.Valid, App.IsFresh;
    var ranges :- GetValidatorDefinitionRanges(entries);
    RangesAreComplete(entries);
    CompleteMeans(ranges);
    var app := new App(node, ranges, limits);
    var initialized := app.InitializePrimaryOracle();
    if initialized.Failure? {
      return Failure(initialized.error);
    }
    return Success(app);
  }

  /**
   * The process from its start through the given number of cycles: all the blocks fetched are stored
   * or part of the branch in progress, and the monitor can go on.
   */
  method StartAndRun(entries: seq<Entry>, node: Node, limits: Limits, cycles: nat) returns (r: Result<(App, int)>)
    requires node.WellFormed() && Progresses(node)
    modifies node
    ensures r == Failure(MissingGenesisRange) <==> !HasGenesis(entries)
    ensures r == Failure(EmptyStaticList) <==> HasGenesis(entries) && HasEmptyList(entries)
    ensures r.Success? ==>
              var (app, fetched) := r.value;
              && fresh(app) && app.Valid() && app.node == node && app.offlineReporter.limits == limits
              && app.ranges == RangesOf(SortedByHeight(entries))
              && |app.epochFetcher.cycles| == 1 + cycles
              && |app.db.blocks| + |app.blockFetcher.currentBranch| == fetched
              && old(node.TipAt(node.clock)).number <= app.oracle.maxHeight
    ensures r.Failure? && HasGenesis(entries) && !HasEmptyList(entries) ==>
              var ranges := RangesOf(SortedByHeight(entries));
              ranges != [] && CanEnd(node, ranges, limits, r.error)
  {
    hide HasGenesis, HasEmptyList, RangesOf, SortedByHeight, Progresses, Complete, NotReplaced, LogsOf, ListsValidators;
    hide App.Valid, App.AnswersKept;
    var app :- Start(entries, node, limits);
    var fetched :- app.RunCycles(cycles);
    return Success((app, fetched));
  }

  lemma CallsAtMostPrefix(calls: seq<Call>, n: nat, cap: Option<int>)
    requires CallsAtMost(calls, 1, cap) && n <= |calls|
    ensures CallsAtMost(calls[..n], 1, cap)
  {
  }

  lemma RaisedCap(branch: seq<Block>, calls: seq<Call>, known: int, later: int)
    requires AtMost(branch, Some(known)) && CallsAtMost(calls, 1, Some(known)) && known <= later
    ensures AtMost(branch, Some(later)) && CallsAtMost(calls, 1, Some(later))
  {
  }

  lemma SyncedCallIsStored(
      tree: map<Hash, Block>, table: map<Hash, Block>, calls: seq<Call>, head: Option<Block>, initial: int, i: nat)
    requires InSync(tree, table, calls, head, initial) && i < |calls|
    ensures calls[i].block.hash in EquivocationReporter.Group(calls[i])
  {
    EquivocationReporter.OwnBlockIsThere(calls, table, i);
  }

  lemma NothingLost(history: seq<Epoch>, known: int)
    ensures AreKept(history, known, history, known)
  {
  }

  lemma AnswersAreKept(history: seq<Epoch>, more: seq<Epoch>, known: int, later: int)
    requires AllAbove(more, known) && known <= later
    ensures history != [] ==>
              forall h :: h <= known ==> ValidatorsAt(history + more, later, h) == ValidatorsAt(history, known, h)
  {
    hide ValidatorsAt;
    forall h | h <= known && history != []
      ensures ValidatorsAt(history + more, later, h) == ValidatorsAt(history, known, h)
    {
      AnswersAreFinal(history, more, known, later, h);
    }
  }

  lemma DeliveredSnoc(calls: seq<Call>, call: Call)
    ensures Delivered(calls + [call]) == Delivered(calls) + [call.block]
  {
  }
}
