/** The epochs one validator contract yields, round after round (src/monitor/validators.py). */
module ContractEpochs {
  import opened Basics
  import opened Node
  import opened PrimaryOracle

  // ---------------------------------------------------------------------------
  // One contract
  // ---------------------------------------------------------------------------

  /** What a contract's fetcher knows. */
  datatype Fetcher = Fetcher(
    contract: Address,
    enterHeight: int,
    definitionIndex: int,
    lastFetchHeight: Option<int>,
    earliest: Option<Epoch>,
    latest: Option<Epoch>)

  ghost predicate HeightsIncrease(log: seq<ContractEpoch>) {
    forall i, j :: 0 <= i < j < |log| ==> log[i].height < log[j].height
  }

  /** The epoch a contract entry gives rise to: it cannot start before the contract is in use. */
  function Clamped(f: Fetcher, entry: ContractEpoch): Epoch {
    Epoch(Max(entry.height, f.enterHeight), entry.validators, f.definitionIndex)
  }

  predicate IsNew(f: Fetcher, entry: ContractEpoch) {
    f.latest.None? || f.latest.value.startHeight < entry.height
  }

  /** The epochs that `f` takes from the first `n` entries of the log. */
  function NewEpochs(f: Fetcher, log: seq<ContractEpoch>, n: nat): seq<Epoch>
    requires n <= |log|
  {
    if n == 0 then []
    else NewEpochs(f, log, n - 1) + if IsNew(f, log[n - 1]) then [Clamped(f, log[n - 1])] else []
  }

  /** What is taken does not depend on when the contract was asked before. */
  lemma {:induction false} NewEpochsIgnoreFetchHeight(f: Fetcher, height: Option<int>, log: seq<ContractEpoch>, n: nat)
    requires n <= |log|
    ensures NewEpochs(f.(lastFetchHeight := height), log, n) == NewEpochs(f, log, n)
  {
    if n > 0 {
      NewEpochsIgnoreFetchHeight(f, height, log, n - 1);
    }
  }

  /** Whatever is taken carries the validators of its entry, and every new entry is taken. */
  lemma {:induction false} NewEpochsCarryEntries(f: Fetcher, log: seq<ContractEpoch>, n: nat)
    requires n <= |log|
    ensures forall e :: e in NewEpochs(f, log, n) ==>
                          exists i :: 0 <= i < n && e.validators == log[i].validators &&
                                      e.startHeight == Max(log[i].height, f.enterHeight) &&
                                      e.definitionIndex == f.definitionIndex
    ensures forall i :: 0 <= i < n && (f.latest.None? || f.latest.value.startHeight < log[i].height) ==>
                          Epoch(Max(log[i].height, f.enterHeight), log[i].validators, f.definitionIndex) in
                          NewEpochs(f, log, n)
  {
    if n > 0 {
      NewEpochsCarryEntries(f, log, n - 1);
    }
  }

  /** The fetcher after it has taken new epochs at a block number. */
  function AfterFetch(f: Fetcher, blockNumber: int, epochs: seq<Epoch>): Fetcher {
    var g := f.(lastFetchHeight := Some(blockNumber));
    if epochs == [] then g
    else g.(earliest := if f.earliest.None? then Some(epochs[0]) else f.earliest,
            latest := Some(epochs[|epochs| - 1]))
  }

  /** One observation of a contract: the node's block number and how much of the log it shows. */
  datatype Reading = Reading(blockNumber: int, visible: nat)

  function Fetch(f: Fetcher, log: seq<ContractEpoch>, r: Reading): Fetcher
    requires r.visible <= |log|
  {
    AfterFetch(f, r.blockNumber, NewEpochs(f, log, r.visible))
  }

  /** Nothing among the first `seen` entries will be taken again. */
  ghost predicate CaughtUp(f: Fetcher, log: seq<ContractEpoch>, seen: nat)
    requires seen <= |log|
  {
    && (seen == 0 ==> f.latest.None?)
    && (seen > 0 ==> f.latest.Some? && f.latest.value.startHeight == Max(log[seen - 1].height, f.enterHeight))
  }

  lemma {:induction false} NewEpochsAreUnseen(f: Fetcher, log: seq<ContractEpoch>, seen: nat, n: nat)
    requires seen <= |log| && n <= |log| && HeightsIncrease(log) && CaughtUp(f, log, seen)
    ensures forall e :: e in NewEpochs(f, log, n) ==> exists i :: seen <= i < n && e == Clamped(f, log[i])
  {
    if n > 0 {
      NewEpochsAreUnseen(f, log, seen, n - 1);
      if n - 1 < seen {
        assert log[n - 1].height <= log[seen - 1].height;
      }
    }
  }

  lemma {:induction false} FetchCatchesUp(f: Fetcher, log: seq<ContractEpoch>, seen: nat, r: Reading)
    requires seen <= r.visible <= |log| && HeightsIncrease(log) && CaughtUp(f, log, seen)
    ensures CaughtUp(Fetch(f, log, r), log, r.visible)
  {
    var n := r.visible;
    var epochs := NewEpochs(f, log, n);
    if n > 0 {
      if seen > 0 {
        assert log[seen - 1].height <= log[n - 1].height;
      }
      if !IsNew(f, log[n - 1]) {
        NothingNewBelow(f, log, n);
      }
    }
  }

  /** When an entry is not new, neither are the earlier ones. */
  lemma {:induction false} NothingNewBelow(f: Fetcher, log: seq<ContractEpoch>, n: nat)
    requires 0 < n <= |log| && HeightsIncrease(log) && !IsNew(f, log[n - 1])
    ensures NewEpochs(f, log, n) == []
  {
    if n > 1 {
      assert log[n - 2].height < log[n - 1].height;
      NothingNewBelow(f, log, n - 1);
    }
  }

  // ---------------------------------------------------------------------------
  // Fetching in many rounds against fetching once
  // ---------------------------------------------------------------------------

  /** The fetcher after a run of observations of its contract. */
  function FetchRounds(f: Fetcher, log: seq<ContractEpoch>, rounds: seq<Reading>): Fetcher
    requires forall r :: r in rounds ==> r.visible <= |log|
  {
    if rounds == [] then f
    else Fetch(FetchRounds(f, log, rounds[..|rounds| - 1]), log, rounds[|rounds| - 1])
  }

  /** Everything taken during those rounds, in order. */
  function TakenInRounds(f: Fetcher, log: seq<ContractEpoch>, rounds: seq<Reading>): seq<Epoch>
    requires forall r :: r in rounds ==> r.visible <= |log|
  {
    if rounds == [] then [] else
      var before := rounds[..|rounds| - 1];
      TakenInRounds(f, log, before) + NewEpochs(FetchRounds(f, log, before), log, rounds[|rounds| - 1].visible)
  }

  ghost predicate Growing(rounds: seq<Reading>) {
    forall i, j :: 0 <= i <= j < |rounds| ==> rounds[i].visible <= rounds[j].visible
  }

  /** How much the first round that saw anything saw. */
  function FirstSeen(rounds: seq<Reading>): nat {
    if rounds == [] then 0
    else if FirstSeen(rounds[..|rounds| - 1]) > 0 then FirstSeen(rounds[..|rounds| - 1])
    else rounds[|rounds| - 1].visible
  }

  function LastSeen(rounds: seq<Reading>): nat {
    if rounds == [] then 0 else rounds[|rounds| - 1].visible
  }

  predicate IsFresh(f: Fetcher) {
    f.lastFetchHeight.None? && f.earliest.None? && f.latest.None?
  }

  /** The entries that rounds really take: all of the first non-empty one, later only those above the enter height. */
  function Surviving(f: Fetcher, log: seq<ContractEpoch>, first: nat, n: nat): seq<Epoch>
    requires n <= |log|
  {
    if n == 0 then []
    else Surviving(f, log, first, n - 1) +
         if n - 1 < first || f.enterHeight < log[n - 1].height then [Clamped(f, log[n - 1])] else []
  }

  lemma {:induction false} RoundsTakeTheSurviving(f: Fetcher, log: seq<ContractEpoch>, rounds: seq<Reading>)
    requires IsFresh(f) && HeightsIncrease(log) && Growing(rounds)
    requires forall r :: r in rounds ==> r.visible <= |log|
    ensures CaughtUp(FetchRounds(f, log, rounds), log, LastSeen(rounds))
    ensures FetchRounds(f, log, rounds).enterHeight == f.enterHeight
    ensures FetchRounds(f, log, rounds).definitionIndex == f.definitionIndex
    ensures FirstSeen(rounds) <= LastSeen(rounds) && (FirstSeen(rounds) == 0 ==> LastSeen(rounds) == 0)
    ensures TakenInRounds(f, log, rounds) == Surviving(f, log, FirstSeen(rounds), LastSeen(rounds))
  {
    if rounds != [] {
      var before, last := rounds[..|rounds| - 1], rounds[|rounds| - 1];
      RoundsTakeTheSurviving(f, log, before);
      var g := FetchRounds(f, log, before);
      assert before != [] ==> before[|before| - 1] == rounds[|rounds| - 2];
      FetchCatchesUp(g, log, LastSeen(before), last);
      RoundTakesTheSurviving(f, g, log, FirstSeen(rounds), LastSeen(before), last.visible);
    }
  }

  /** One more round adds exactly the surviving entries between what was seen and what is shown now. */
  lemma {:induction false} RoundTakesTheSurviving(f: Fetcher, g: Fetcher, log: seq<ContractEpoch>, first: nat,
      seen: nat, n: nat)
    requires n <= |log| && seen <= |log| && HeightsIncrease(log) && CaughtUp(g, log, seen)
    requires g.enterHeight == f.enterHeight && g.definitionIndex == f.definitionIndex
    requires seen == 0 ==> n <= first
    requires seen > 0 ==> first <= seen
    ensures n <= seen ==> NewEpochs(g, log, n) == []
    ensures seen <= n ==> Surviving(f, log, first, seen) + NewEpochs(g, log, n) == Surviving(f, log, first, n)
  {
    if n > 0 {
      RoundTakesTheSurviving(f, g, log, first, seen, n - 1);
      if n <= seen {
        assert log[n - 1].height <= log[seen - 1].height;
      } else if seen > 0 {
        assert log[seen - 1].height < log[n - 1].height;
      }
    }
  }

  lemma {:induction false} SurvivingIsAll(f: Fetcher, log: seq<ContractEpoch>, first: nat, n: nat)
    requires IsFresh(f) && n <= |log|
    ensures |NewEpochs(f, log, n)| == n && |Surviving(f, log, first, n)| <= n
    ensures Surviving(f, log, first, n) == NewEpochs(f, log, n) <==>
            forall i :: first <= i < n ==> f.enterHeight < log[i].height
  {
    if n > 0 {
      SurvivingIsAll(f, log, first, n - 1);
      if n - 1 < first || f.enterHeight < log[n - 1].height {
        var s, t, e := Surviving(f, log, first, n - 1), NewEpochs(f, log, n - 1), [Clamped(f, log[n - 1])];
        if s + e == t + e {
          assert s == (s + e)[..|s|] && t == (t + e)[..|t|];
        }
      }
    }
  }

  /**
   * Fetching in rounds yields what a single fetch at the end would, exactly when every entry that
   * was appended after the first non-empty round lies above the height at which the contract is entered.
   */
  lemma RoundsEqualOneFetch(f: Fetcher, log: seq<ContractEpoch>, rounds: seq<Reading>)
    requires IsFresh(f) && HeightsIncrease(log) && Growing(rounds)
    requires forall r :: r in rounds ==> r.visible <= |log|
    ensures TakenInRounds(f, log, rounds) == NewEpochs(f, log, LastSeen(rounds)) <==>
            forall i :: FirstSeen(rounds) <= i < LastSeen(rounds) ==> f.enterHeight < log[i].height
  {
    RoundsTakeTheSurviving(f, log, rounds);
    SurvivingIsAll(f, log, FirstSeen(rounds), LastSeen(rounds));
  }

  /** A single entry decides every height from its start on. */
  lemma SingleEpochAnswers(e: Epoch, maxHeight: int, h: int)
    requires e.startHeight <= h <= maxHeight
    ensures ValidatorsAt([e], maxHeight, h) == Success(e.validators)
  {
    ScanSnoc([], e, h);
    assert [] + [e] == [e];
  }

  /** Two rounds that lose a change made before the contract is entered: the oracle keeps answering the old set. */
  lemma EarlyChangeIsLost(before: Address, after: Address)
    requires before != after
    ensures var f := Fetcher(Address(0), 100, 1, None, None, None);
            var log := [ContractEpoch(50, [before]), ContractEpoch(70, [after])];
            var rounds := [Reading(60, 1), Reading(80, 2)];
            && HeightsIncrease(log) && Growing(rounds)
            && ValidatorsAt(TakenInRounds(f, log, rounds), 200, 150) == Success([before])
            && ValidatorsAt(NewEpochs(f, log, 2), 200, 150) == Success([after])
  {
    hide Scan, ValidatorsAt;
    var f := Fetcher(Address(0), 100, 1, None, None, None);
    var log := [ContractEpoch(50, [before]), ContractEpoch(70, [after])];
    var rounds := [Reading(60, 1), Reading(80, 2)];
    var first, second := Epoch(100, [before], 1), Epoch(100, [after], 1);
    assert rounds[..1] == [Reading(60, 1)];
    RoundsTakeTheSurviving(f, log, rounds);
    assert Surviving(f, log, 1, 1) == [first];
    assert TakenInRounds(f, log, rounds) == Surviving(f, log, 1, 2) == [first];
    SingleEpochAnswers(first, 200, 150);
    assert NewEpochs(f, log, 1) == [first];
    assert NewEpochs(f, log, 2) == [first] + [second];
    LastEpochAnswers(first, second, 200, 150);
  }

  lemma LastEpochAnswers(first: Epoch, second: Epoch, maxHeight: int, h: int)
    requires first.startHeight == second.startHeight <= h <= maxHeight &&
             first.definitionIndex == second.definitionIndex
    ensures ValidatorsAt([first] + [second], maxHeight, h) == Success(second.validators)
  {
    ScanSnoc([], first, h);
    assert [] + [first] == [first];
    ScanSnoc([first], second, h);
  }
}
