/** The fetchers of validator epochs as the monitor keeps them (src/monitor/validators.py). */
module EpochFetcher {
  import opened Basics
  import opened Node
  import opened PrimaryOracle
  import opened ContractEpochs
  import opened EpochCycles
  import opened DefinitionRanges

  class ContractEpochFetcher {
    const contract: Address
    const enterHeight: int
    const definitionIndex: int
    var lastFetchHeight: Option<int>
    var earliestFetchedEpoch: Option<Epoch>
    var latestFetchedEpoch: Option<Epoch>

    function State(): Fetcher
      reads this
    {
      Fetcher(contract, enterHeight, definitionIndex, lastFetchHeight, earliestFetchedEpoch, latestFetchedEpoch)
    }

    constructor (contract: Address, enterHeight: int, definitionIndex: int)
      ensures State() == Fetcher(contract, enterHeight, definitionIndex, None, None, None)
    {
      this.contract, this.enterHeight, this.definitionIndex := contract, enterHeight, definitionIndex;
      lastFetchHeight, earliestFetchedEpoch, latestFetchedEpoch := None, None, None;
    }

    /** Takes from the contract the epochs that start above the latest one taken before. */
    method FetchNewEpochs(node: Node) returns (r: Result<seq<Epoch>>)
      requires node.WellFormed()
      modifies this, node
      ensures node.clock == old(node.clock) + 2
      ensures var log, reading := node.Log(contract), ReadingAt(node, old(node.clock), contract);
              && (r.Failure? <==> !HeightsIncrease(log[..reading.visible]))
              && (r.Failure? ==> r.error == UnsortedEpochHeights)
              && (r.Success? ==> r.value == NewEpochs(old(State()), log, reading.visible))
              && (r.Success? ==> State() == Fetch(old(State()), log, reading))
      // every epoch carries the validators its contract lists, and every new entry yields one
      ensures r.Success? ==>
                var log, visible := node.Log(contract), node.visible(old(node.clock) + 1, contract);
                && (forall e :: e in r.value ==>
                                  exists i :: 0 <= i < visible && e.validators == log[i].validators &&
                                              e.startHeight == Max(log[i].height, enterHeight) &&
                                              e.definitionIndex == definitionIndex)
                && (forall i :: 0 <= i < visible &&
                                (old(latestFetchedEpoch).None? ||
                                    old(latestFetchedEpoch).value.startHeight < log[i].height) ==>
                                  Epoch(Max(log[i].height, enterHeight), log[i].validators, definitionIndex) in r.value)
      ensures r.Success? ==> lastFetchHeight == Some(node.TipAt(old(node.clock)).number)
      ensures r.Success? && r.value == [] ==>
                earliestFetchedEpoch == old(earliestFetchedEpoch) && latestFetchedEpoch == old(latestFetchedEpoch)
      ensures r.Success? && r.value != [] ==>
                && latestFetchedEpoch == Some(r.value[|r.value| - 1])
                && earliestFetchedEpoch ==
                   if old(earliestFetchedEpoch).Some? then old(earliestFetchedEpoch) else Some(r.value[0])
    {
      hide NewEpochs, HeightsIncrease;
      ghost var before, reading := State(), ReadingAt(node, node.clock, contract);
      NewEpochsIgnoreFetchHeight(before, Some(node.TipAt(node.clock).number), node.Log(contract), reading.visible);
      NewEpochsCarryEntries(before, node.Log(contract), reading.visible);
      var blockNumber := node.BlockNumber();
      lastFetchHeight := Some(blockNumber);
      var entries := node.ContractEpochs(contract);
      var sorted := IsSorted(entries);
      if !sorted {
        return Failure(UnsortedEpochHeights);
      }
      var newEpochs := NewAmong(entries, node.Log(contract));
      if newEpochs != [] {
        if earliestFetchedEpoch.None? {
          earliestFetchedEpoch := Some(newEpochs[0]);
        }
        latestFetchedEpoch := Some(newEpochs[|newEpochs| - 1]);
      }
      return Success(newEpochs);
    }

    /** The epochs of the entries above the latest one taken before. */
    method NewAmong(entries: seq<ContractEpoch>, ghost log: seq<ContractEpoch>) returns (newEpochs: seq<Epoch>)
      requires entries <= log
      ensures newEpochs == NewEpochs(State(), log, |entries|)
    {
      newEpochs := [];
      for i := 0 to |entries|
        invariant newEpochs == NewEpochs(State(), log, i)
      {
        if latestFetchedEpoch.None? || latestFetchedEpoch.value.startHeight < entries[i].height {
          newEpochs := newEpochs + [Epoch(Max(entries[i].height, enterHeight), entries[i].validators, definitionIndex)];
        }
      }
    }

    method TakeTurn(node: Node, ghost f: Fetcher, ghost g: Fetcher, ghost part: seq<Epoch>) returns (epochs: seq<Epoch>)
      requires node.WellFormed() && State() == f && Turn(node, node.clock, f, g, part)
      modifies this, node
      ensures node.clock == old(node.clock) + 2
      ensures epochs == part && State() == g
    {
      var r := FetchNewEpochs(node);
      epochs := r.value;
    }
  }

  /** A fetch by `f` that begins with call `t` yields `part` and leaves `g`. */
  ghost predicate Turn(node: Node, t: nat, f: Fetcher, g: Fetcher, part: seq<Epoch>)
    requires node.WellFormed()
  {
    var log, reading := node.Log(f.contract), ReadingAt(node, t, f.contract);
    && HeightsIncrease(log)
    && part == NewEpochs(f, log, reading.visible)
    && g == Fetch(f, log, reading)
  }

  function Flatten(parts: seq<seq<Epoch>>, n: nat): seq<Epoch>
    requires n <= |parts|
  {
    if n == 0 then [] else Flatten(parts, n - 1) + parts[n - 1]
  }

  /** What a fetch sees that begins with call `t`: first the block number, then the contract. */
  ghost function ReadingAt(node: Node, t: nat, contract: Address): (r: Reading)
    requires node.WellFormed()
    ensures r.visible <= |node.Log(contract)|
  {
    Reading(node.TipAt(t).number, node.visible(t + 1, contract))
  }

  /** The contract's heights are distinct and in order. */
  method IsSorted(entries: seq<ContractEpoch>) returns (sorted: bool)
    ensures sorted <==> HeightsIncrease(entries)
  {
    for i := 0 to |entries|
      invariant HeightsIncrease(entries[..i])
    {
      if i > 0 && entries[i].height <= entries[i - 1].height {
        return false;
      }
    }
    assert entries[..|entries|] == entries;
    return true;
  }

  /** Looking into a suffix is looking from further on. */
  lemma {:induction false} NextEarliestInSuffix(fs: seq<Fetcher>, k: nat, from: nat)
    requires k + from <= |fs|
    ensures NextEarliest(fs[k..], from) == NextEarliest(fs, k + from)
    decreases |fs| - from
  {
    if k + from < |fs| {
      assert fs[k..][from] == fs[k + from];
      NextEarliestInSuffix(fs, k, from + 1);
    }
  }

  lemma StaleInSuffix(fs: seq<Fetcher>, k: nat)
    requires k <= |fs|
    ensures Stale(fs[k..], 0) <==> Stale(fs, k)
  {
    if k < |fs| {
      NextEarliestInSuffix(fs, k, 1);
    }
  }

  /** Nothing in the readings is ahead of what the node shows from call `t0` on. */
  ghost predicate SeenBefore(node: Node, addresses: seq<Address>, readings: seq<Reading>, t0: nat)
    requires node.WellFormed()
  {
    && |readings| == |addresses|
    && (forall k, t :: 0 <= k < |readings| && t0 <= t ==> readings[k].visible <= node.visible(t, addresses[k]))
    && (forall k, t :: 0 <= k < |readings| && t0 <= t ==> readings[k].blockNumber <= node.TipAt(t).number)
  }

  ghost predicate BlockNumberBefore(node: Node, b: int, t0: nat)
    requires node.WellFormed()
  {
    forall t :: t0 <= t ==> b <= node.TipAt(t).number
  }

  /** The logs behind the addresses. */
  ghost predicate AreLogs(node: Node, addresses: seq<Address>, logs: seq<seq<ContractEpoch>>) {
    && |logs| == |addresses|
    && (forall k :: 0 <= k < |logs| ==> logs[k] == node.Log(addresses[k]))
  }

  /** Position of the fetcher for definition `k`, or 0. */
  ghost function Position(fs: seq<Fetcher>, k: int, from: nat): (i: nat)
    requires from <= |fs|
    ensures i < |fs| || i == 0
    ensures forall j :: from <= j < |fs| && fs[j].definitionIndex == k ==>
            i <= j && i < |fs| && fs[i].definitionIndex == k
    decreases |fs| - from
  {
    if from == |fs| then 0 else if fs[from].definitionIndex == k then from else Position(fs, k, from + 1)
  }

  /** What a cycle that begins with call `t0` reads: two calls for each fetcher, in order. */
  ghost function ReadingsFrom(node: Node, addresses: seq<Address>, fs: seq<Fetcher>, t0: nat): (rs: seq<Reading>)
    requires node.WellFormed()
    ensures |rs| == |addresses|
    ensures forall k :: 0 <= k < |rs| ==> rs[k] == ReadingAt(node, t0 + 2 * Position(fs, k, 0), addresses[k])
  {
    seq(|addresses|, k requires 0 <= k < |addresses| => ReadingAt(node, t0 + 2 * Position(fs, k, 0), addresses[k]))
  }

  lemma PositionInOrder(fs: seq<Fetcher>, ranges: nat, i: nat)
    requires InDefinitionOrder(fs, ranges) && i < |fs|
    ensures Position(fs, fs[i].definitionIndex, 0) == i
  {
    hide Position;
    var p := Position(fs, fs[i].definitionIndex, 0);
    assert p <= i && fs[p].definitionIndex == fs[i].definitionIndex;
  }

  /** The fetcher in position `i` reads its own log at its own turn. */
  lemma TurnOf(node: Node, addresses: seq<Address>, logs: seq<seq<ContractEpoch>>, fs: seq<Fetcher>, t0: nat, i: nat)
    requires node.WellFormed() && AreLogs(node, addresses, logs) && InDefinitionOrder(fs, |logs|) && i < |fs|
    requires fs[i].contract == addresses[fs[i].definitionIndex]
    ensures 0 <= fs[i].definitionIndex < |logs|
    ensures logs[fs[i].definitionIndex] == node.Log(fs[i].contract)
    ensures ReadingsFrom(node, addresses, fs, t0)[fs[i].definitionIndex] == ReadingAt(node, t0 + 2 * i, fs[i].contract)
  {
    hide ReadingsFrom, Position;
    PositionInOrder(fs, |logs|, i);
  }

  lemma AreReadable(node: Node, addresses: seq<Address>, logs: seq<seq<ContractEpoch>>, fs: seq<Fetcher>, t0: nat)
    requires node.WellFormed() && AreLogs(node, addresses, logs) && InDefinitionOrder(fs, |logs|)
    ensures Readable(fs, logs, ReadingsFrom(node, addresses, fs, t0))
  {
    hide Position;
  }

  ghost function Parts(fs: seq<Fetcher>, logs: seq<seq<ContractEpoch>>,
      readings: seq<Reading>): (parts: seq<seq<Epoch>>)
    requires Readable(fs, logs, readings)
    ensures |parts| == |fs|
    ensures forall i :: 0 <= i < |fs| ==>
                          parts[i] ==
                          NewEpochs(fs[i], logs[fs[i].definitionIndex], readings[fs[i].definitionIndex].visible)
  {
    seq(|fs|, i requires 0 <= i < |fs| =>
          NewEpochs(fs[i], logs[fs[i].definitionIndex], readings[fs[i].definitionIndex].visible))
  }

  lemma {:induction false} PartsAreAllNew(fs: seq<Fetcher>, logs: seq<seq<ContractEpoch>>, readings: seq<Reading>,
      n: nat)
    requires Readable(fs, logs, readings) && n <= |fs|
    ensures Flatten(Parts(fs, logs, readings), n) == NewFromAll(fs, logs, readings, n)
  {
    hide NewEpochs, Parts;
    if n > 0 {
      PartsAreAllNew(fs, logs, readings, n - 1);
    }
  }

  /** Every fetcher's turn in a cycle that begins with call `t0`. */
  lemma TurnsOfCycle(node: Node, addresses: seq<Address>, logs: seq<seq<ContractEpoch>>, fs: seq<Fetcher>, t0: nat)
    requires node.WellFormed() && AreLogs(node, addresses, logs) && InDefinitionOrder(fs, |logs|)
    requires forall i :: 0 <= i < |fs| ==> fs[i].contract == addresses[fs[i].definitionIndex]
    requires forall k :: 0 <= k < |logs| ==> HeightsIncrease(logs[k])
    ensures var readings := ReadingsFrom(node, addresses, fs, t0);
            && Readable(fs, logs, readings)
            && forall i :: 0 <= i < |fs| ==>
                             Turn(node, t0 + 2 * i, fs[i], FetchedAll(fs, logs, readings)[i],
                                 Parts(fs, logs, readings)[i])
  {
    hide NewEpochs, ReadingsFrom, AreLogs, InDefinitionOrder, HeightsIncrease, FetchedAll, Parts;
    var readings := ReadingsFrom(node, addresses, fs, t0);
    AreReadable(node, addresses, logs, fs, t0);
    forall i | 0 <= i < |fs|
      ensures Turn(node, t0 + 2 * i, fs[i], FetchedAll(fs, logs, readings)[i], Parts(fs, logs, readings)[i])
    {
      TurnOf(node, addresses, logs, fs, t0, i);
    }
  }

  lemma LogsIncrease(logs: seq<seq<ContractEpoch>>, cycles: seq<seq<Reading>>)
    requires LegalCycles(logs, cycles)
    ensures forall k :: 0 <= k < |logs| ==> HeightsIncrease(logs[k])
  {
  }

  lemma ReadingsAreLegal(node: Node, addresses: seq<Address>, logs: seq<seq<ContractEpoch>>, fs: seq<Fetcher>, t0: nat)
    requires node.WellFormed() && Progresses(node) && AreLogs(node, addresses, logs)
    ensures LegalReadings(logs, ReadingsFrom(node, addresses, fs, t0))
  {
    var rs := ReadingsFrom(node, addresses, fs, t0);
    forall k, i | 0 <= k < |logs| && rs[k].visible <= i < |logs[k]|
      ensures rs[k].blockNumber < logs[k][i].height
    {
      var t := t0 + 2 * Position(fs, k, 0);
      assert node.TipAt(t).number <= node.TipAt(t + 1).number < node.Log(addresses[k])[i].height;
    }
  }

  lemma ReadingsAreSeen(node: Node, addresses: seq<Address>, fs: seq<Fetcher>, t0: nat, t1: nat)
    requires node.WellFormed() && Progresses(node)
    requires t1 == t0 + if fs == [] then 1 else 2 * |fs|
    ensures SeenBefore(node, addresses, ReadingsFrom(node, addresses, fs, t0), t1)
  {
    var rs := ReadingsFrom(node, addresses, fs, t0);
    forall k, t | 0 <= k < |rs| && t1 <= t
      ensures rs[k].visible <= node.visible(t, addresses[k]) && rs[k].blockNumber <= node.TipAt(t).number
    {
      assert t0 + 2 * Position(fs, k, 0) + 1 <= t;
    }
  }

  lemma CyclesStayLegal(
      node: Node, addresses: seq<Address>, logs: seq<seq<ContractEpoch>>, cycles: seq<seq<Reading>>, fs: seq<Fetcher>,
      t0: nat)
    requires node.WellFormed() && Progresses(node) && AreLogs(node, addresses, logs) && LegalCycles(logs, cycles)
    requires cycles != [] ==> SeenBefore(node, addresses, cycles[|cycles| - 1], t0)
    ensures LegalCycles(logs, cycles + [ReadingsFrom(node, addresses, fs, t0)])
    ensures cycles != [] ==> NotBefore(cycles[|cycles| - 1], ReadingsFrom(node, addresses, fs, t0))
  {
    hide Progresses;
    var n, rs := |cycles|, ReadingsFrom(node, addresses, fs, t0);
    var all := cycles + [rs];
    ReadingsAreLegal(node, addresses, logs, fs, t0);
    assert all[n] == rs;
    assert forall c :: 0 <= c < n ==> all[c] == cycles[c];
    forall c, d, k | 0 <= c <= d < n + 1 && 0 <= k < |logs|
      ensures all[c][k].visible <= all[d][k].visible
    {
      if c < d == n {
        assert cycles[c][k].visible <= cycles[n - 1][k].visible;
      }
    }
  }

  ghost function StatesOf(fetchers: seq<ContractEpochFetcher>): (fs: seq<Fetcher>)
    reads fetchers
    ensures |fs| == |fetchers|
    ensures forall i :: 0 <= i < |fs| ==> fs[i] == fetchers[i].State()
  {
    seq(|fetchers|, i requires 0 <= i < |fetchers| reads fetchers => fetchers[i].State())
  }

  lemma StatesSnoc(fetchers: seq<ContractEpochFetcher>, f: ContractEpochFetcher)
    ensures StatesOf(fetchers + [f]) == StatesOf(fetchers) + [f.State()]
  {
  }

  lemma StatesOfNone()
    ensures StatesOf([]) == []
  {
  }

  /** The fetchers and the known height are those of the run over all cycles up to call `t0`. */
  ghost predicate InRun(
      node: Node, addresses: seq<Address>, logs: seq<seq<ContractEpoch>>, start: seq<Fetcher>,
      cycles: seq<seq<Reading>>,
      fs: seq<Fetcher>, known: int, t0: nat)
    requires node.WellFormed()
  {
    && AreLogs(node, addresses, logs)
    && LegalCycles(logs, cycles) && InDefinitionOrder(start, |logs|)
    && (forall f :: f in start ==> IsFresh(f))
    && fs == Run(start, logs, cycles, |cycles|).fetchers
    && ForAddresses(fs, addresses)
    && (cycles != [] ==> SeenBefore(node, addresses, cycles[|cycles| - 1], t0))
    && (cycles != [] ==> exists b :: known == KnownHeight(fs, b) && BlockNumberBefore(node, b, t0))
  }

  ghost predicate ForAddresses(fs: seq<Fetcher>, addresses: seq<Address>) {
    forall i :: 0 <= i < |fs| ==>
                  0 <= fs[i].definitionIndex < |addresses| && fs[i].contract == addresses[fs[i].definitionIndex]
  }

  // ---------------------------------------------------------------------------
  // The fetchers of a list of definition ranges
  // ---------------------------------------------------------------------------

  /** One fetcher for each contract among the first `n` ranges. */
  ghost function StartFetchers(ranges: seq<DefinitionRange>, n: nat): seq<Fetcher>
    requires n <= |ranges| && HaveAddresses(ranges)
  {
    if n == 0 then [] else
      StartFetchers(ranges, n - 1) +
      if ranges[n - 1].isContract
      then [Fetcher(ranges[n - 1].contractAddress.value, ranges[n - 1].enterHeight, n - 1, None, None, None)]
      else []
  }

  ghost function AddressesOf(ranges: seq<DefinitionRange>): (addresses: seq<Address>)
    ensures |addresses| == |ranges|
    ensures forall k :: 0 <= k < |ranges| && ranges[k].contractAddress.Some? ==>
            addresses[k] == ranges[k].contractAddress.value
  {
    seq(|ranges|, k requires 0 <= k < |ranges| =>
          match ranges[k].contractAddress case None => Address(0) case Some(a) => a)
  }

  ghost function LogsOf(node: Node, addresses: seq<Address>): (logs: seq<seq<ContractEpoch>>)
    ensures AreLogs(node, addresses, logs)
  {
    seq(|addresses|, k requires 0 <= k < |addresses| => node.Log(addresses[k]))
  }

  /** Each fetcher belongs to the contract of its range. */
  ghost predicate ForRanges(fs: seq<Fetcher>, ranges: seq<DefinitionRange>) {
    forall i :: 0 <= i < |fs| ==>
                  var k := fs[i].definitionIndex;
                  && 0 <= k < |ranges| && ranges[k].isContract && ranges[k].enterHeight == fs[i].enterHeight
                  && ranges[k].contractAddress == Some(fs[i].contract)
  }

  /** Fresh fetchers of contracts among the first `n` ranges, in order. */
  ghost predicate AreStarted(fs: seq<Fetcher>, ranges: seq<DefinitionRange>, n: nat) {
    InDefinitionOrder(fs, n) && ForRanges(fs, ranges) && forall f :: f in fs ==> IsFresh(f)
  }

  lemma OneMoreRange(fs: seq<Fetcher>, ranges: seq<DefinitionRange>, n: nat)
    requires AreStarted(fs, ranges, n)
    ensures AreStarted(fs, ranges, n + 1)
  {
  }

  lemma OneMoreFetcher(fs: seq<Fetcher>, ranges: seq<DefinitionRange>, n: nat, f: Fetcher)
    requires AreStarted(fs, ranges, n) && n < |ranges| && IsFresh(f) && f.definitionIndex == n
    requires ranges[n].isContract && ranges[n].enterHeight == f.enterHeight &&
             ranges[n].contractAddress == Some(f.contract)
    ensures AreStarted(fs + [f], ranges, n + 1)
  {
    var all := fs + [f];
    assert all[|fs|] == f;
    assert forall i :: 0 <= i < |fs| ==> all[i] == fs[i];
  }

  lemma {:induction false} StartFetchersAreFresh(ranges: seq<DefinitionRange>, n: nat)
    requires n <= |ranges| && HaveAddresses(ranges)
    ensures InDefinitionOrder(StartFetchers(ranges, n), n)
    ensures ForRanges(StartFetchers(ranges, n), ranges)
    ensures forall f :: f in StartFetchers(ranges, n) ==> IsFresh(f)
  {
    hide HaveAddresses;
    if n > 0 {
      hide InDefinitionOrder, ForRanges;
      StartFetchersAreFresh(ranges, n - 1);
      var fs := StartFetchers(ranges, n - 1);
      assert AreStarted(fs, ranges, n - 1);
      hide AreStarted;
      if ranges[n - 1].isContract {
        ContractHasAddress(ranges, n - 1);
        var f := Fetcher(ranges[n - 1].contractAddress.value, ranges[n - 1].enterHeight, n - 1, None, None, None);
        OneMoreFetcher(fs, ranges, n - 1, f);
        StartedMeans(fs + [f], ranges, n);
      } else {
        assert fs + [] == fs;
        OneMoreRange(fs, ranges, n - 1);
        StartedMeans(fs, ranges, n);
      }
    }
  }

  /** Every contract range has a fetcher at the start. */
  lemma {:induction false} StartFetcherOf(ranges: seq<DefinitionRange>, n: nat, k: nat) returns (i: nat)
    requires HaveAddresses(ranges) && k < n <= |ranges| && ranges[k].isContract
    ensures i < |StartFetchers(ranges, n)| && StartFetchers(ranges, n)[i].definitionIndex == k
  {
    if k < n - 1 {
      i := StartFetcherOf(ranges, n - 1, k);
    } else {
      i := |StartFetchers(ranges, n - 1)|;
    }
  }

  lemma StartedMeans(fs: seq<Fetcher>, ranges: seq<DefinitionRange>, n: nat)
    requires AreStarted(fs, ranges, n)
    ensures InDefinitionOrder(fs, n) && ForRanges(fs, ranges) && forall f :: f in fs ==> IsFresh(f)
  {
  }

  lemma ContractHasAddress(ranges: seq<DefinitionRange>, k: nat)
    requires HaveAddresses(ranges) && k < |ranges| && ranges[k].isContract
    ensures ranges[k].contractAddress.Some?
  {
  }

  lemma RangesGiveAddresses(fs: seq<Fetcher>, ranges: seq<DefinitionRange>)
    requires ForRanges(fs, ranges)
    ensures ForAddresses(fs, AddressesOf(ranges))
  {
  }

  /** Before the first cycle. */
  lemma StartsInRun(node: Node, ranges: seq<DefinitionRange>, known: int, t0: nat)
    requires node.WellFormed() && Progresses(node) && HaveAddresses(ranges)
    ensures var start, addresses := StartFetchers(ranges, |ranges|), AddressesOf(ranges);
            InRun(node, addresses, LogsOf(node, addresses), start, [], start, known, t0)
  {
    hide AddressesOf, HaveAddresses, StartFetchers;
    var start, addresses := StartFetchers(ranges, |ranges|), AddressesOf(ranges);
    var logs := LogsOf(node, addresses);
    StartFetchersAreFresh(ranges, |ranges|);
    RangesGiveAddresses(start, ranges);
    NoCycles(node, addresses, logs);
  }

  lemma NoCycles(node: Node, addresses: seq<Address>, logs: seq<seq<ContractEpoch>>)
    requires node.WellFormed() && Progresses(node) && AreLogs(node, addresses, logs)
    ensures LegalCycles(logs, [])
  {
    forall k | 0 <= k < |logs|
      ensures HeightsIncrease(logs[k])
    {
      assert logs[k] == node.Log(addresses[k]);
    }
  }

  lemma TurnsInRun(
      node: Node, addresses: seq<Address>, logs: seq<seq<ContractEpoch>>, start: seq<Fetcher>,
      cycles: seq<seq<Reading>>,
      fs: seq<Fetcher>, known: int, t0: nat)
    requires node.WellFormed() && InRun(node, addresses, logs, start, cycles, fs, known, t0)
    ensures AreLogs(node, addresses, logs)
    ensures var readings := ReadingsFrom(node, addresses, fs, t0);
            && Readable(fs, logs, readings)
            && forall i :: 0 <= i < |fs| ==>
                             Turn(node, t0 + 2 * i, fs[i], FetchedAll(fs, logs, readings)[i],
                                 Parts(fs, logs, readings)[i])
  {
    hide LegalCycles, AreLogs, Run, InDefinitionOrder, SeenBefore, Turn, KnownHeight;
    LogsIncrease(logs, cycles);
    TurnsOfCycle(node, addresses, logs, fs, t0);
  }

  lemma AddressesKept(fs: seq<Fetcher>, addresses: seq<Address>, logs: seq<seq<ContractEpoch>>, readings: seq<Reading>)
    requires Readable(fs, logs, readings) && ForAddresses(fs, addresses)
    ensures ForAddresses(WithoutStale(FetchedAll(fs, logs, readings)), addresses)
  {
    hide NewEpochs, FetchedAll, FirstNotStale, Readable;
    var gs := FetchedAll(fs, logs, readings);
    assert ForAddresses(gs, addresses);
  }

  /** One more cycle, whose known height is computed with the node's block number `b`. */
  lemma CycleStaysInRun(
      node: Node, addresses: seq<Address>, logs: seq<seq<ContractEpoch>>, start: seq<Fetcher>,
      cycles: seq<seq<Reading>>,
      fs: seq<Fetcher>, known: int, t0: nat, b: int)
    requires node.WellFormed() && Progresses(node) && InRun(node, addresses, logs, start, cycles, fs, known, t0)
    requires Readable(fs, logs, ReadingsFrom(node, addresses, fs, t0))
    requires b == node.TipAt(t0 + 2 * |fs|).number
    ensures var readings := ReadingsFrom(node, addresses, fs, t0);
            var gs := WithoutStale(FetchedAll(fs, logs, readings));
            && InRun(node, addresses, logs, start, cycles + [readings], gs, KnownHeight(gs, b), 
                     t0 + if fs == [] then 1 else 2 * |fs|)
            && (cycles != [] ==> known <= KnownHeight(gs, b))
            && (cycles != [] ==> forall e :: e in NewFromAll(fs, logs, readings, |fs|) ==> known < e.startHeight)
  {
    hide LegalCycles, AreLogs, InDefinitionOrder, SeenBefore, NewEpochs, FetchedAll, NewFromAll, FirstNotStale, Run;
    hide Readable;
    hide KnownHeight, ReadingsFrom, Progresses, ForAddresses;
    var t1 := t0 + if fs == [] then 1 else 2 * |fs|;
    var readings := ReadingsFrom(node, addresses, fs, t0);
    var gs := WithoutStale(FetchedAll(fs, logs, readings));
    CyclesStayLegal(node, addresses, logs, cycles, fs, t0);
    RunExtends(start, logs, cycles, readings);
    AddressesKept(fs, addresses, logs, readings);
    ReadingsAreSeen(node, addresses, fs, t0, t1);
    NumberBefore(node, t0 + 2 * |fs|, t1);
    if cycles != [] {
      var all, n := cycles + [readings], |cycles|;
      assert all[n] == readings && all[n - 1] == cycles[n - 1];
      var a :| known == KnownHeight(fs, a) && BlockNumberBefore(node, a, t0);
      NewEpochsAreAboveKnown(start, logs, all, n, a);
      KnownHeightGrows(start, logs, all, n, a, b);
    }
  }

  lemma KnownIsBetween(fs: seq<Fetcher>, b: int, low: int, high: int)
    requires low <= b <= high
    requires forall i :: 0 <= i < |fs| ==> fs[i].lastFetchHeight.Some? && low <= fs[i].lastFetchHeight.value <= high
    ensures low <= KnownHeight(fs, b) <= high
  {
  }

  /** A cycle that begins with call `t0` learns all heights up to the block number at that time, and none to come. */
  lemma KnownIsRecent(
      node: Node, addresses: seq<Address>, logs: seq<seq<ContractEpoch>>, fs: seq<Fetcher>, t0: nat, b: int)
    requires node.WellFormed() && Progresses(node) && Readable(fs, logs, ReadingsFrom(node, addresses, fs, t0))
    requires b == node.TipAt(t0 + 2 * |fs|).number
    ensures node.TipAt(t0).number <=
            KnownHeight(WithoutStale(FetchedAll(fs, logs, ReadingsFrom(node, addresses, fs, t0))), b) <= b
  {
    hide NewEpochs, FetchedAll, FirstNotStale, ReadingsFrom, Progresses, KnownHeight;
    var readings := ReadingsFrom(node, addresses, fs, t0);
    var fetched, low := FetchedAll(fs, logs, readings), node.TipAt(t0).number;
    TipsGrow(node, t0, t0 + 2 * |fs|);
    forall i | 0 <= i < |fs|
      ensures fetched[i].lastFetchHeight.Some? && low <= fetched[i].lastFetchHeight.value <= b
    {
      ReadingIsRecent(node, addresses, fs, t0, fs[i].definitionIndex);
    }
    KnownIsBetween(fetched[FirstNotStale(fetched, 0)..], b, low, b);
  }

  lemma TipsGrow(node: Node, s: nat, t: nat)
    requires node.WellFormed() && Progresses(node) && s <= t
    ensures node.TipAt(s).number <= node.TipAt(t).number
  {
  }

  lemma ReadingIsRecent(node: Node, addresses: seq<Address>, fs: seq<Fetcher>, t0: nat, k: int)
    requires node.WellFormed() && Progresses(node) && 0 <= k < |addresses|
    ensures var number := ReadingsFrom(node, addresses, fs, t0)[k].blockNumber;
            node.TipAt(t0).number <= number <= node.TipAt(t0 + 2 * |fs|).number
  {
    hide Position;
    var p := Position(fs, k, 0);
    assert t0 <= t0 + 2 * p <= t0 + 2 * |fs|;
  }

  lemma NumberBefore(node: Node, t: nat, t1: nat)
    requires node.WellFormed() && Progresses(node) && t <= t1
    ensures BlockNumberBefore(node, node.TipAt(t).number, t1)
  {
  }

  ghost predicate AllDiffer(fetchers: seq<ContractEpochFetcher>) {
    forall i, j :: 0 <= i < j < |fetchers| ==> fetchers[i] != fetchers[j]
  }

  /** The fetcher of the `k`th range, which has not asked its contract yet. */
  predicate IsFor(f: ContractEpochFetcher, ranges: seq<DefinitionRange>, k: int)
    requires 0 <= k < |ranges|
    reads f
  {
    && f.definitionIndex == k && f.enterHeight == ranges[k].enterHeight && Some(f.contract) == ranges[k].contractAddress
    && f.lastFetchHeight.None? && f.earliestFetchedEpoch.None? && f.latestFetchedEpoch.None?
  }

  /** A new fetcher for each contract among the ranges, in their order. */
  method FetchersFor(ranges: seq<DefinitionRange>) returns (fetchers: seq<ContractEpochFetcher>)
    requires HaveAddresses(ranges)
    ensures fresh(fetchers) && AllDiffer(fetchers)
    ensures StatesOf(fetchers) == StartFetchers(ranges, |ranges|)
    // each contract range has its fetcher, and no other range has one
    ensures forall k :: 0 <= k < |ranges| && ranges[k].isContract ==> exists f :: f in fetchers && IsFor(f, ranges, k)
    ensures forall f :: f in fetchers ==>
                          0 <= f.definitionIndex < |ranges| && ranges[f.definitionIndex].isContract &&
                          IsFor(f, ranges, f.definitionIndex)
  {
    hide HaveAddresses, StatesOf;
    fetchers := [];
    StatesOfNone();
    for index := 0 to |ranges|
      invariant fresh(fetchers) && AllDiffer(fetchers)
      invariant StatesOf(fetchers) == StartFetchers(ranges, index)
    {
      if ranges[index].isContract {
        ContractHasAddress(ranges, index);
        var fetcher := new ContractEpochFetcher(ranges[index].contractAddress.value, ranges[index].enterHeight, index);
        StatesSnoc(fetchers, fetcher);
        fetchers := fetchers + [fetcher];
      }
    }
    AllRangesHaveTheirs(ranges, fetchers);
  }

  lemma AllRangesHaveTheirs(ranges: seq<DefinitionRange>, fetchers: seq<ContractEpochFetcher>)
    requires HaveAddresses(ranges) && StatesOf(fetchers) == StartFetchers(ranges, |ranges|)
    ensures forall k :: 0 <= k < |ranges| && ranges[k].isContract ==> exists f :: f in fetchers && IsFor(f, ranges, k)
    ensures forall f :: f in fetchers ==>
                          0 <= f.definitionIndex < |ranges| && ranges[f.definitionIndex].isContract &&
                          IsFor(f, ranges, f.definitionIndex)
  {
    hide HaveAddresses, StatesOf, StartFetchers;
    StartFetchersAreFresh(ranges, |ranges|);
    var fs := StartFetchers(ranges, |ranges|);
    forall f | f in fetchers
      ensures 0 <= f.definitionIndex < |ranges| && ranges[f.definitionIndex].isContract
      ensures IsFor(f, ranges, f.definitionIndex)
    {
      var i :| 0 <= i < |fetchers| && fetchers[i] == f;
      assert fs[i] == f.State() && fs[i] in fs;
    }
    forall k | 0 <= k < |ranges| && ranges[k].isContract
      ensures exists f :: f in fetchers && IsFor(f, ranges, k)
    {
      var i := StartFetcherOf(ranges, |ranges|, k);
      assert fs[i] == fetchers[i].State() && fetchers[i] in fetchers;
    }
  }

  class EpochFetcher {
    var contractEpochFetchers: seq<ContractEpochFetcher>
    var lastFetchHeight: int
    ghost const addresses: seq<Address>       // contract of each definition range
    ghost const logs: seq<seq<ContractEpoch>> // all each of them will ever list
    ghost const start: seq<Fetcher>           // the fetchers at the beginning
    ghost var cycles: seq<seq<Reading>>       // what each cycle has read

    /** The fetchers are those of the run over all cycles so far. */
    ghost predicate Valid(node: Node)
      reads this, contractEpochFetchers, node
    {
      && node.WellFormed()
      && Distinct()
      && InRun(node, addresses, logs, start, cycles, States(), lastFetchHeight, node.clock)
    }

    ghost predicate Distinct()
      reads this`contractEpochFetchers
    {
      AllDiffer(contractEpochFetchers)
    }

    /** Fetchers are only ever dropped from the front. */
    ghost predicate IsSuffixOf(fetchers: seq<ContractEpochFetcher>)
      reads this`contractEpochFetchers
    {
      && |contractEpochFetchers| <= |fetchers|
      && contractEpochFetchers == fetchers[|fetchers| - |contractEpochFetchers|..]
    }

    ghost function States(): (fs: seq<Fetcher>)
      reads this`contractEpochFetchers, contractEpochFetchers
      ensures |fs| == |contractEpochFetchers|
      ensures forall i :: 0 <= i < |fs| ==> fs[i] == contractEpochFetchers[i].State()
    {
      StatesOf(contractEpochFetchers)
    }

    constructor (ranges: seq<DefinitionRange>, node: Node)
      requires HaveAddresses(ranges) && node.WellFormed() && Progresses(node)
      ensures Valid(node) && cycles == [] && lastFetchHeight == 0
      ensures start == StartFetchers(ranges, |ranges|)
      ensures addresses == AddressesOf(ranges) && logs == LogsOf(node, addresses)
      ensures fresh(contractEpochFetchers)
    {
      var fetchers := FetchersFor(ranges);
      contractEpochFetchers, lastFetchHeight := fetchers, 0;
      addresses := AddressesOf(ranges);
      logs := LogsOf(node, AddressesOf(ranges));
      start := StartFetchers(ranges, |ranges|);
      cycles := [];
      new;
      hide HaveAddresses, InRun, AddressesOf, LogsOf, StatesOf, Progresses, StartFetchers;
      StartsInRun(node, ranges, 0, node.clock);
    }

    /** Asks every contract in turn. */
    method FetchFromAll(node: Node, ghost fs: seq<Fetcher>, ghost gs: seq<Fetcher>, ghost parts: seq<seq<Epoch>>)
      returns (newEpochs: seq<Epoch>)
      requires node.WellFormed() && Distinct()
      requires |contractEpochFetchers| == |fs| == |gs| == |parts|
      requires forall i :: 0 <= i < |fs| ==> contractEpochFetchers[i].State() == fs[i]
      requires forall i :: 0 <= i < |fs| ==> Turn(node, node.clock + 2 * i, fs[i], gs[i], parts[i])
      modifies contractEpochFetchers, node
      ensures node.clock == old(node.clock) + 2 * |fs|
      ensures newEpochs == Flatten(parts, |parts|)
      ensures forall i :: 0 <= i < |fs| ==> contractEpochFetchers[i].State() == gs[i]
    {
      hide Turn;
      newEpochs := [];
      for i := 0 to |contractEpochFetchers|
        invariant node.clock == old(node.clock) + 2 * i
        invariant newEpochs == Flatten(parts, i)
        invariant forall j :: i <= j < |fs| ==> contractEpochFetchers[j].State() == fs[j]
        invariant forall j :: 0 <= j < i ==> contractEpochFetchers[j].State() == gs[j]
      {
        var epochs := contractEpochFetchers[i].TakeTurn(node, fs[i], gs[i], parts[i]);
        newEpochs := newEpochs + epochs;
      }
    }

    /** One cycle: asks every contract, drops the stale ones and records the height that is known now. */
    method FetchNewEpochs(node: Node) returns (newEpochs: seq<Epoch>)
      requires Valid(node) && Progresses(node)
      modifies this, contractEpochFetchers, node
      ensures Valid(node)
      ensures var fs, readings := old(States()), ReadingsFrom(node, addresses, old(States()), old(node.clock));
              && cycles == old(cycles) + [readings]
              && Readable(fs, logs, readings)
              && newEpochs == NewFromAll(fs, logs, readings, |fs|)
      ensures IsSuffixOf(old(contractEpochFetchers))
      ensures old(node.clock) < node.clock
      // everything up to the block number at the beginning of the cycle is known now, and nothing yet to come
      ensures old(node.TipAt(node.clock)).number <= lastFetchHeight <= node.TipAt(node.clock).number
      ensures old(cycles) != [] ==> old(lastFetchHeight) <= lastFetchHeight
      ensures old(cycles) != [] ==> forall e :: e in newEpochs ==> old(lastFetchHeight) < e.startHeight
    {
      hide NewEpochs, NewFromAll, ReadingsFrom, FetchedAll, KnownHeight, InRun, FirstNotStale, Progresses, Readable;
      hide WithoutStale, Distinct, States, AreLogs, Node.TipAt;
      ghost var t0, fs := node.clock, States();
      ghost var readings := ReadingsFrom(node, addresses, fs, t0);
      newEpochs := AskAll(node);
      PoppingLeavesOne(FetchedAll(fs, logs, readings));
      CycleStaysInRun(node, addresses, logs, start, cycles, fs, lastFetchHeight, t0, node.TipAt(node.clock).number);
      KnownIsRecent(node, addresses, logs, fs, t0, node.TipAt(node.clock).number);
      TipsGrow(node, node.clock, node.clock + 1);
      DropAndRecord(node);
      cycles := cycles + [readings];
    }

    /** What follows once all contracts have been asked. */
    method DropAndRecord(node: Node)
      requires Distinct() && node.WellFormed()
      modifies this`contractEpochFetchers, this`lastFetchHeight, node
      ensures States() == WithoutStale(old(States()))
      ensures IsSuffixOf(old(contractEpochFetchers)) && Distinct()
      ensures node.clock == old(node.clock) + (if contractEpochFetchers == [] then 1 else 0)
      ensures lastFetchHeight == KnownHeight(States(), node.TipAt(old(node.clock)).number)
    {
      hide FirstNotStale, KnownHeight, Distinct, States;
      RemoveStaleFetchers();
      assert IsSuffixOf(old(contractEpochFetchers));
      hide IsSuffixOf, WithoutStale;
      SetLastFetchHeight(node);
    }

    method AskAll(node: Node) returns (newEpochs: seq<Epoch>)
      requires Valid(node)
      modifies contractEpochFetchers, node
      ensures Distinct()
      ensures node.clock == old(node.clock) + 2 * |contractEpochFetchers|
      ensures var fs, readings := old(States()), ReadingsFrom(node, addresses, old(States()), old(node.clock));
              && Readable(fs, logs, readings)
              && newEpochs == NewFromAll(fs, logs, readings, |fs|)
              && States() == FetchedAll(fs, logs, readings)
    {
      hide NewEpochs, NewFromAll, Turn, ReadingsFrom, FetchedAll, Parts, InRun, Readable, Distinct, AreLogs, Flatten;
      ghost var fs, readings := States(), ReadingsFrom(node, addresses, States(), node.clock);
      TurnsInRun(node, addresses, logs, start, cycles, fs, lastFetchHeight, node.clock);
      newEpochs := FetchFromAll(node, fs, FetchedAll(fs, logs, readings), Parts(fs, logs, readings));
      PartsAreAllNew(fs, logs, readings, |fs|);
    }

    /** Drops the first fetcher if it was asked at or above the earliest epoch of a later one. */
    method PopFirstFetcherIfStale() returns (popped: bool)
      requires Distinct()
      modifies this`contractEpochFetchers
      ensures popped == Stale(old(States()), 0)
      ensures contractEpochFetchers == if popped then old(contractEpochFetchers)[1..] else old(contractEpochFetchers)
      ensures Distinct()
    {
      if |contractEpochFetchers| == 0 || contractEpochFetchers[0].lastFetchHeight.None? {
        return false;
      }
      var next: Option<Epoch> := None;
      var i := 1;
      while i < |contractEpochFetchers| && next.None?
        invariant 1 <= i <= |contractEpochFetchers|
        invariant next.None? ==> NextEarliest(States(), i) == NextEarliest(States(), 1)
        invariant next.Some? ==> next == NextEarliest(States(), 1)
      {
        next := contractEpochFetchers[i].earliestFetchedEpoch;
        i := i + 1;
      }
      if next.None? || contractEpochFetchers[0].lastFetchHeight.value < next.value.startHeight {
        return false;
      }
      contractEpochFetchers := contractEpochFetchers[1..];
      return true;
    }

    method RemoveStaleFetchers()
      requires Distinct()
      modifies this`contractEpochFetchers
      ensures States() == WithoutStale(old(States()))
      ensures contractEpochFetchers == old(contractEpochFetchers)[FirstNotStale(old(States()), 0)..]
      ensures Distinct()
    {
      hide NextEarliest, Stale, Distinct;
      ghost var all, fs, k := contractEpochFetchers, States(), 0;
      var popped := true;
      while popped
        invariant 0 <= k <= |all| == |fs|
        invariant contractEpochFetchers == all[k..] && States() == fs[k..]
        invariant Distinct()
        invariant FirstNotStale(fs, k) == FirstNotStale(fs, 0)
        invariant !popped ==> !Stale(fs, k)
        decreases |contractEpochFetchers|, popped
      {
        StaleInSuffix(fs, k);
        popped := PopFirstFetcherIfStale();
        if popped {
          assert all[k..][1..] == all[k + 1..];
          k := k + 1;
        }
      }
    }

    /** The height up to which the contracts left have all been asked. */
    method SetLastFetchHeight(node: Node)
      requires node.WellFormed()
      modifies this`lastFetchHeight, node
      ensures node.clock == old(node.clock) + (if contractEpochFetchers == [] then 1 else 0)
      ensures contractEpochFetchers == [] ==> lastFetchHeight == node.TipAt(old(node.clock)).number
      ensures (exists f :: f in contractEpochFetchers && f.lastFetchHeight.None?) ==> lastFetchHeight == 0
      ensures contractEpochFetchers != [] && (forall f :: f in contractEpochFetchers ==> f.lastFetchHeight.Some?) ==>
                && (forall f :: f in contractEpochFetchers ==> lastFetchHeight <= f.lastFetchHeight.value)
                && (exists f :: f in contractEpochFetchers && lastFetchHeight == f.lastFetchHeight.value)
      ensures lastFetchHeight == KnownHeight(States(), node.TipAt(old(node.clock)).number)
    {
      hide KnownHeight, States;
      var known := KnownNow(node);
      lastFetchHeight := known;
      KnownHeightMeans(node.TipAt(old(node.clock)).number);
    }

    method KnownNow(node: Node) returns (known: int)
      requires node.WellFormed()
      modifies node
      ensures node.clock == old(node.clock) + (if contractEpochFetchers == [] then 1 else 0)
      ensures known == KnownHeight(States(), node.TipAt(old(node.clock)).number)
    {
      hide AllAsked, LowestFetch;
      if contractEpochFetchers == [] {
        known := node.BlockNumber();
        return known;
      }
      var unasked := IsAnyUnasked();
      if unasked {
        return 0;
      }
      known := LowestFetchHeight();
    }

    /** The known height said in terms of the fetchers left. */
    lemma KnownHeightMeans(blockNumber: int)
      ensures var known := KnownHeight(States(), blockNumber);
              && (contractEpochFetchers == [] ==> known == blockNumber)
              && ((exists f :: f in contractEpochFetchers && f.lastFetchHeight.None?) ==> known == 0)
              && (contractEpochFetchers != [] &&
                  (forall f :: f in contractEpochFetchers ==> f.lastFetchHeight.Some?) ==>
                    && (forall f :: f in contractEpochFetchers ==> known <= f.lastFetchHeight.value)
                    && (exists f :: f in contractEpochFetchers && known == f.lastFetchHeight.value))
    {
      hide AllAsked, LowestFetch, States;
      AskedOrNot();
    }

    lemma AskedOrNot()
      ensures AllAsked(States()) <==> forall f :: f in contractEpochFetchers ==> f.lastFetchHeight.Some?
      ensures AllAsked(States()) && contractEpochFetchers != [] ==>
                var lowest := LowestFetch(States(), |States()|);
                && (forall f :: f in contractEpochFetchers ==> lowest <= f.lastFetchHeight.value)
                && (exists f :: f in contractEpochFetchers && lowest == f.lastFetchHeight.value)
    {
      forall i | 0 <= i < |contractEpochFetchers|
        ensures States()[i].lastFetchHeight == contractEpochFetchers[i].lastFetchHeight
      {
      }
      if AllAsked(States()) && contractEpochFetchers != [] {
        var lowest := LowestFetch(States(), |States()|);
        var i :| 0 <= i < |States()| && lowest == States()[i].lastFetchHeight.value;
        assert contractEpochFetchers[i] in contractEpochFetchers;
      }
      if forall f :: f in contractEpochFetchers ==> f.lastFetchHeight.Some? {
        forall i | 0 <= i < |States()|
          ensures States()[i].lastFetchHeight.Some?
        {
          assert contractEpochFetchers[i] in contractEpochFetchers;
        }
      }
    }

    method IsAnyUnasked() returns (unasked: bool)
      ensures unasked <==> !AllAsked(States())
    {
      for i := 0 to |contractEpochFetchers|
        invariant forall j :: 0 <= j < i ==> States()[j].lastFetchHeight.Some?
      {
        if contractEpochFetchers[i].lastFetchHeight.None? {
          assert States()[i].lastFetchHeight.None?;
          return true;
        }
      }
      return false;
    }

    method LowestFetchHeight() returns (lowest: int)
      requires contractEpochFetchers != [] && AllAsked(States())
      ensures lowest == LowestFetch(States(), |States()|)
    {
      assert States()[0].lastFetchHeight.Some?;
      lowest := contractEpochFetchers[0].lastFetchHeight.value;
      for i := 1 to |contractEpochFetchers|
        invariant lowest == LowestFetch(States(), i)
      {
        assert States()[i].lastFetchHeight.Some?;
        lowest := Min(lowest, contractEpochFetchers[i].lastFetchHeight.value);
      }
    }
  }
  /** Checks the order of the ranges and creates their fetchers. */
  method CreateEpochFetcher(ranges: seq<DefinitionRange>, node: Node) returns (r: Result<EpochFetcher>)
    requires HaveAddresses(ranges) && node.WellFormed() && Progresses(node)
    ensures r.Success? <==> Connected(ranges)
    ensures r.Failure? ==> r.error == RangesNotConnected
    ensures r.Success? ==> fresh(r.value) && fresh(r.value.contractEpochFetchers)
    ensures r.Success? ==> r.value.Valid(node) && r.value.cycles == [] && r.value.lastFetchHeight == 0
    ensures r.Success? ==> r.value.start == StartFetchers(ranges, |ranges|)
    ensures r.Success? ==> r.value.addresses == AddressesOf(ranges) && r.value.logs == LogsOf(node, r.value.addresses)
  {
    hide HaveAddresses, InRun, AddressesOf, LogsOf, StatesOf, Progresses, StartFetchers, Connected;
    var _ :- ValidateValidatorDefinitionOrder(ranges);
    var fetcher := new EpochFetcher(ranges, node);
    return Success(fetcher);
  }
}
