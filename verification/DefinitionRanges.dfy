/** From the chain specification's multi list to ranges of heights and static epochs (src/monitor/validators.py). */
module DefinitionRanges {
  import opened Basics
  import opened PrimaryOracle

  /** What one entry of the multi list names: a list of validators or a contract that lists them. */
  datatype Config = StaticList(list: seq<Address>) | SafeContract(address: Address) | Contract(address: Address)

  datatype Entry = Entry(height: nat, config: Config)

  datatype DefinitionRange = DefinitionRange(
    enterHeight: int,
    leaveHeight: Option<int>,
    isContract: bool,
    contractAddress: Option<Address>,
    validators: Option<seq<Address>>)

  // ---------------------------------------------------------------------------
  // Sorting the multi list
  // ---------------------------------------------------------------------------

  ghost predicate Ascending(entries: seq<Entry>) {
    forall i, j :: 0 <= i < j < |entries| ==> entries[i].height <= entries[j].height
  }

  function AtHeight(entries: seq<Entry>, h: int): seq<Entry> {
    if entries == [] then [] else
      AtHeight(entries[..|entries| - 1], h) +
      if entries[|entries| - 1].height == h then [entries[|entries| - 1]] else []
  }

  /** Inserts an entry behind all that are not higher. */
  function InsertByHeight(entries: seq<Entry>, e: Entry): seq<Entry> {
    if entries == [] || entries[|entries| - 1].height <= e.height then entries + [e]
    else InsertByHeight(entries[..|entries| - 1], e) + [entries[|entries| - 1]]
  }

  function SortedByHeight(entries: seq<Entry>): seq<Entry> {
    if entries == [] then [] else InsertByHeight(SortedByHeight(entries[..|entries| - 1]), entries[|entries| - 1])
  }

  lemma AscendingSnoc(entries: seq<Entry>, e: Entry)
    ensures Ascending(entries + [e]) <==> Ascending(entries) && forall x :: x in entries ==> x.height <= e.height
  {
    var all := entries + [e];
    assert all[|entries|] == e;
    assert forall i :: 0 <= i < |entries| ==> all[i] == entries[i];
    if Ascending(all) {
      forall i, j | 0 <= i < j < |entries|
        ensures entries[i].height <= entries[j].height
      {
        assert all[i].height <= all[j].height;
      }
    }
  }

  lemma {:induction false} InsertKeepsAscending(entries: seq<Entry>, e: Entry)
    requires Ascending(entries)
    ensures Ascending(InsertByHeight(entries, e))
    ensures |InsertByHeight(entries, e)| == |entries| + 1
    ensures forall x :: x in InsertByHeight(entries, e) <==> x in entries || x == e
  {
    hide Ascending;
    if entries == [] {
      AscendingSnoc(entries, e);
    } else {
      var n := |entries| - 1;
      assert entries == entries[..n] + [entries[n]];
      AscendingSnoc(entries[..n], entries[n]);
      if entries[n].height <= e.height {
        AscendingSnoc(entries, e);
      } else {
        InsertKeepsAscending(entries[..n], e);
        AscendingSnoc(InsertByHeight(entries[..n], e), entries[n]);
      }
    }
  }

  lemma AtHeightSnoc(entries: seq<Entry>, e: Entry, h: int)
    ensures AtHeight(entries + [e], h) == AtHeight(entries, h) + if e.height == h then [e] else []
  {
    assert (entries + [e])[..|entries|] == entries;
  }

  lemma {:induction false} InsertAtHeight(entries: seq<Entry>, e: Entry, h: int)
    requires Ascending(entries)
    ensures AtHeight(InsertByHeight(entries, e), h) == AtHeight(entries, h) + if e.height == h then [e] else []
  {
    hide AtHeight;
    if entries == [] || entries[|entries| - 1].height <= e.height {
      AtHeightSnoc(entries, e, h);
    } else {
      var n := |entries| - 1;
      InsertAtHeight(entries[..n], e, h);
      AtHeightSnoc(entries[..n], entries[n], h);
      AtHeightSnoc(InsertByHeight(entries[..n], e), entries[n], h);
      assert entries == entries[..n] + [entries[n]];
    }
  }

  /** Sorting orders the entries by height and keeps the order of those with equal heights. */
  lemma {:induction false} SortingIsStable(entries: seq<Entry>)
    ensures Ascending(SortedByHeight(entries)) && |SortedByHeight(entries)| == |entries|
    ensures forall x :: x in SortedByHeight(entries) <==> x in entries
    ensures forall h :: AtHeight(SortedByHeight(entries), h) == AtHeight(entries, h)
  {
    if entries != [] {
      var n := |entries| - 1;
      SortingIsStable(entries[..n]);
      assert entries == entries[..n] + [entries[n]];
      InsertKeepsAscending(SortedByHeight(entries[..n]), entries[n]);
      forall h
        ensures AtHeight(SortedByHeight(entries), h) == AtHeight(entries, h)
      {
        InsertAtHeight(SortedByHeight(entries[..n]), entries[n], h);
      }
    }
  }

  // ---------------------------------------------------------------------------
  // Ranges
  // ---------------------------------------------------------------------------

  function RangeOf(e: Entry, next: Option<int>): DefinitionRange {
    match e.config
    case StaticList(list) => DefinitionRange(e.height, next, false, None, Some(list))
    case SafeContract(a) => DefinitionRange(e.height, next, true, Some(a), None)
    case Contract(a) => DefinitionRange(e.height, next, true, Some(a), None)
  }

  /** Each entry rules until the next one. */
  function RangesOf(sorted: seq<Entry>): (ranges: seq<DefinitionRange>)
    ensures |ranges| == |sorted|
    ensures forall i :: 0 <= i < |sorted| ==>
                          ranges[i] == RangeOf(sorted[i], if i + 1 < |sorted| then Some(sorted[i + 1].height) else None)
  {
    seq(|sorted|, i requires 0 <= i < |sorted| =>
          RangeOf(sorted[i], if i + 1 < |sorted| then Some(sorted[i + 1].height) else None))
  }

  lemma NextRange(sorted: seq<Entry>, i: nat)
    requires i < |sorted|
    ensures RangesOf(sorted)[..i + 1] == RangesOf(sorted)[..i] +
            [RangeOf(sorted[i], if i + 1 < |sorted| then Some(sorted[i + 1].height) else None)]
  {
    hide RangeOf;
  }

  predicate HasGenesis(entries: seq<Entry>) {
    exists e :: e in entries && e.height == 0
  }

  predicate HasEmptyList(entries: seq<Entry>) {
    exists e :: e in entries && e.config == StaticList([])
  }

  /** A range carries what its entry names, from the entry's height up to that of the next one. */
  lemma RangesCarryEntries(sorted: seq<Entry>)
    ensures |RangesOf(sorted)| == |sorted|
    ensures forall i :: 0 <= i < |sorted| ==>
                          var range := RangesOf(sorted)[i];
                          && range.enterHeight == sorted[i].height
                          && range.leaveHeight == (if i + 1 < |sorted| then Some(sorted[i + 1].height) else None)
                          && match sorted[i].config
                             case StaticList(list) =>
                               !range.isContract && range.validators == Some(list) && range.contractAddress.None?
                             case SafeContract(a) =>
                               range.isContract && range.contractAddress == Some(a) && range.validators.None?
                             case Contract(a) =>
                               range.isContract && range.contractAddress == Some(a) && range.validators.None?
  {
  }

  method GetValidatorDefinitionRanges(entries: seq<Entry>) returns (r: Result<seq<DefinitionRange>>)
    ensures r == Failure(MissingGenesisRange) <==> forall e :: e in entries ==> e.height != 0
    ensures r == Failure(EmptyStaticList) <==>
              (exists e :: e in entries && e.height == 0) && exists e :: e in entries && e.config == StaticList([])
    // each range carries what its entry names, from the entry's height up to that of the next one
    ensures r.Success? ==>
              var sorted := SortedByHeight(entries);
              && |r.value| == |sorted|
              && forall i :: 0 <= i < |sorted| ==>
                   && r.value[i].enterHeight == sorted[i].height
                   && r.value[i].leaveHeight == (if i + 1 < |sorted| then Some(sorted[i + 1].height) else None)
                   && match sorted[i].config
                      case StaticList(list) =>
                        !r.value[i].isContract && r.value[i].validators == Some(list) &&
                            r.value[i].contractAddress.None?
                      case SafeContract(a) =>
                        r.value[i].isContract && r.value[i].contractAddress == Some(a) && r.value[i].validators.None?
                      case Contract(a) =>
                        r.value[i].isContract && r.value[i].contractAddress == Some(a) && r.value[i].validators.None?
    ensures r == if !HasGenesis(entries) then Failure(MissingGenesisRange)
                 else if HasEmptyList(entries) then Failure(EmptyStaticList)
                 else Success(RangesOf(SortedByHeight(entries)))
  {
    if !HasGenesis(entries) {
      return Failure(MissingGenesisRange);
    }
    if HasEmptyList(entries) {
      return Failure(EmptyStaticList);
    }
    hide HasGenesis, HasEmptyList, SortedByHeight, RangesOf;
    var sorted := SortedByHeight(entries);
    RangesCarryEntries(sorted);
    var ranges: seq<DefinitionRange> := [];
    for i := 0 to |sorted|
      invariant ranges == RangesOf(sorted)[..i]
    {
      var next := if i + 1 < |sorted| then Some(sorted[i + 1].height) else None;
      NextRange(sorted, i);
      match sorted[i].config {
        case StaticList(list) =>
          ranges := ranges + [DefinitionRange(sorted[i].height, next, false, None, Some(list))];
        case SafeContract(a) =>
          ranges := ranges + [DefinitionRange(sorted[i].height, next, true, Some(a), None)];
        case Contract(a) =>
          ranges := ranges + [DefinitionRange(sorted[i].height, next, true, Some(a), None)];
      }
    }
    assert RangesOf(sorted)[..|sorted|] == RangesOf(sorted);
    return Success(ranges);
  }

  /** Each range ends where the next one begins. */
  ghost predicate Connected(ranges: seq<DefinitionRange>) {
    forall i :: 0 <= i < |ranges| - 1 ==> ranges[i].leaveHeight == Some(ranges[i + 1].enterHeight)
  }

  method ValidateValidatorDefinitionOrder(ranges: seq<DefinitionRange>) returns (r: Result<()>)
    ensures r.Success? <==> Connected(ranges)
    ensures r.Failure? ==> r.error == RangesNotConnected
  {
    for i := 0 to |ranges|
      invariant forall j :: 0 <= j < i && j < |ranges| - 1 ==> ranges[j].leaveHeight == Some(ranges[j + 1].enterHeight)
    {
      if i + 1 < |ranges| && ranges[i].leaveHeight != Some(ranges[i + 1].enterHeight) {
        return Failure(RangesNotConnected);
      }
    }
    return Success(());
  }

  /** The half-open range of heights that a definition is in charge of. */
  predicate Covers(range: DefinitionRange, h: int) {
    range.enterHeight <= h && (range.leaveHeight.None? || h < range.leaveHeight.value)
  }

  /** Connected ranges that begin with the genesis, go up and never end. */
  ghost predicate Complete(ranges: seq<DefinitionRange>) {
    && ranges != []
    && ranges[0].enterHeight == 0
    && Connected(ranges)
    && ranges[|ranges| - 1].leaveHeight.None?
    && (forall i, j :: 0 <= i < j < |ranges| ==> ranges[i].enterHeight <= ranges[j].enterHeight)
    && (forall i :: 0 <= i < |ranges| && !ranges[i].isContract ==>
        ranges[i].validators.Some? && ranges[i].validators.value != [])
    && HaveAddresses(ranges)
  }

  /** Every range of a contract names it. */
  ghost predicate HaveAddresses(ranges: seq<DefinitionRange>) {
    forall i :: 0 <= i < |ranges| && ranges[i].isContract ==> ranges[i].contractAddress.Some?
  }

  lemma CompleteMeans(ranges: seq<DefinitionRange>)
    requires Complete(ranges)
    ensures ranges != [] && HaveAddresses(ranges) && Connected(ranges)
  {
  }

  lemma SortedRangesAreComplete(sorted: seq<Entry>)
    requires Ascending(sorted) && sorted != [] && sorted[0].height == 0
    requires forall i :: 0 <= i < |sorted| ==> sorted[i].config != StaticList([])
    ensures Complete(RangesOf(sorted))
  {
    var ranges := RangesOf(sorted);
    forall i | 0 <= i < |ranges|
      ensures ranges[i].enterHeight == sorted[i].height
      ensures ranges[i].leaveHeight == if i + 1 < |sorted| then Some(sorted[i + 1].height) else None
      ensures ranges[i].isContract ==> ranges[i].contractAddress.Some?
      ensures !ranges[i].isContract ==> ranges[i].validators.Some? && ranges[i].validators.value != []
    {
      match sorted[i].config {
        case StaticList(_) =>
        case SafeContract(_) =>
        case Contract(_) =>
      }
    }
  }

  /** The ranges of every valid multi list are complete; in particular they pass the order check. */
  lemma RangesAreComplete(entries: seq<Entry>)
    requires HasGenesis(entries) && !HasEmptyList(entries)
    ensures Complete(RangesOf(SortedByHeight(entries)))
  {
    hide SortedByHeight, AtHeight;
    var sorted := SortedByHeight(entries);
    SortingIsStable(entries);
    var e :| e in entries && e.height == 0;
    assert e in sorted;
    assert sorted[0].height <= e.height;
    forall i | 0 <= i < |sorted|
      ensures sorted[i].config != StaticList([])
    {
      assert sorted[i] in entries;
    }
    SortedRangesAreComplete(sorted);
  }

  /** Every height lies in exactly one of the ranges. */
  lemma RangesPartitionHeights(ranges: seq<DefinitionRange>, h: int) returns (i: nat)
    requires Complete(ranges) && 0 <= h
    ensures i < |ranges| && Covers(ranges[i], h)
    ensures forall j :: 0 <= j < |ranges| && Covers(ranges[j], h) ==> j == i
  {
    i := 0;
    while i < |ranges| && !Covers(ranges[i], h)
      invariant i <= |ranges|
      invariant forall j :: 0 <= j < i ==> !Covers(ranges[j], h)
      invariant i < |ranges| ==> ranges[i].enterHeight <= h
      invariant i == |ranges| ==> ranges[i - 1].leaveHeight.Some?
    {
      i := i + 1;
    }
    OtherRangesDoNotCover(ranges, h, i);
  }

  lemma OtherRangesDoNotCover(ranges: seq<DefinitionRange>, h: int, i: nat)
    requires Complete(ranges) && i < |ranges| && Covers(ranges[i], h)
    ensures forall j :: i < j < |ranges| ==> h < ranges[j].enterHeight
    ensures forall j :: 0 <= j < i ==> !Covers(ranges[j], h)
  {
    forall j | i < j < |ranges|
      ensures h < ranges[j].enterHeight
    {
      assert ranges[i].leaveHeight == Some(ranges[i + 1].enterHeight);
      assert ranges[i + 1].enterHeight <= ranges[j].enterHeight;
    }
    forall j | 0 <= j < i
      ensures !Covers(ranges[j], h)
    {
      assert ranges[j].leaveHeight == Some(ranges[j + 1].enterHeight);
      assert ranges[j + 1].enterHeight <= ranges[i].enterHeight;
    }
  }

  // ---------------------------------------------------------------------------
  // Static epochs
  // ---------------------------------------------------------------------------

  function StaticEpoch(ranges: seq<DefinitionRange>, i: nat): Epoch
    requires i < |ranges| && ranges[i].validators.Some?
  {
    Epoch(ranges[i].enterHeight, ranges[i].validators.value, i)
  }

  ghost predicate HasStaticLists(ranges: seq<DefinitionRange>) {
    forall i :: 0 <= i < |ranges| && !ranges[i].isContract ==> ranges[i].validators.Some?
  }

  /** The epochs of the static ranges among the first `n`. */
  ghost function StaticEpochs(ranges: seq<DefinitionRange>, n: nat): seq<Epoch>
    requires n <= |ranges| && HasStaticLists(ranges)
  {
    if n == 0 then []
    else StaticEpochs(ranges, n - 1) + if ranges[n - 1].isContract then [] else [StaticEpoch(ranges, n - 1)]
  }

  method GetStaticEpochs(ranges: seq<DefinitionRange>) returns (r: Result<seq<Epoch>>)
    requires HasStaticLists(ranges)
    ensures r == if Connected(ranges) then Success(StaticEpochs(ranges, |ranges|)) else Failure(RangesNotConnected)
  {
    var _ :- ValidateValidatorDefinitionOrder(ranges);
    var epochs: seq<Epoch> := [];
    for index := 0 to |ranges|
      invariant epochs == StaticEpochs(ranges, index)
    {
      if !ranges[index].isContract {
        epochs := epochs + [Epoch(ranges[index].enterHeight, ranges[index].validators.value, index)];
      }
    }
    return Success(epochs);
  }

  /** An epoch of some range that does not start before that range; a static range has only its own. */
  ghost predicate Placed(ranges: seq<DefinitionRange>, e: Epoch) {
    && 0 <= e.definitionIndex < |ranges|
    && ranges[e.definitionIndex].enterHeight <= e.startHeight
    && (!ranges[e.definitionIndex].isContract ==>
          ranges[e.definitionIndex].validators.Some? && e == StaticEpoch(ranges, e.definitionIndex))
  }

  lemma {:induction false} StaticEpochsArePlaced(ranges: seq<DefinitionRange>, n: nat)
    requires n <= |ranges| && HasStaticLists(ranges)
    ensures forall e :: e in StaticEpochs(ranges, n) ==> Placed(ranges, e)
    ensures forall i :: 0 <= i < n && !ranges[i].isContract ==> StaticEpoch(ranges, i) in StaticEpochs(ranges, n)
  {
    if n > 0 {
      StaticEpochsArePlaced(ranges, n - 1);
    }
  }

  /**
   * Whatever else the oracle has been fed from contracts, at every height of a static range it
   * answers that range's list, and no answer ever comes from a range entered later.
   */
  lemma StaticRangeAnswers(ranges: seq<DefinitionRange>, history: seq<Epoch>, h: int, i: nat)
    requires Complete(ranges) && i < |ranges| && Covers(ranges[i], h)
    requires forall e :: e in history ==> Placed(ranges, e)
    requires forall e :: e in StaticEpochs(ranges, |ranges|) ==> e in history
    ensures Scan(history, h).Some? ==> Scan(history, h).value.definitionIndex <= i
    ensures !ranges[i].isContract ==> Scan(history, h) == Some(StaticEpoch(ranges, i))
  {
    StaticEpochsArePlaced(ranges, |ranges|);
    OtherRangesDoNotCover(ranges, h, i);
    var k := ScanPicksTheEpochInCharge(history, h);
    if Scan(history, h).Some? {
      assert history[k] in history;
    }
    if !ranges[i].isContract {
      var e := StaticEpoch(ranges, i);
      assert e in history;
      var j :| 0 <= j < |history| && history[j] == e;
      assert Outranks(history[k], history[j]);
    }
  }

  /** For all-static definitions the oracle answers every known height with the list of the range it lies in. */
  lemma StaticOracleAnswers(ranges: seq<DefinitionRange>, maxHeight: int, h: int, i: nat)
    requires Complete(ranges) && forall j :: 0 <= j < |ranges| ==> !ranges[j].isContract
    requires i < |ranges| && Covers(ranges[i], h) && h <= maxHeight
    ensures ranges[i].validators.Some?
    ensures ValidatorsAt(StaticEpochs(ranges, |ranges|), maxHeight, h) == Success(ranges[i].validators.value)
  {
    StaticEpochsArePlaced(ranges, |ranges|);
    StaticRangeAnswers(ranges, StaticEpochs(ranges, |ranges|), h, i);
  }
}
