/** The primary oracle: who was in charge at which height (src/monitor/validators.py). */
module PrimaryOracle {
  import opened Basics

  datatype Epoch = Epoch(startHeight: int, validators: seq<Address>, definitionIndex: int)

  // ---------------------------------------------------------------------------
  // The naive answer: scan every epoch ever added
  // ---------------------------------------------------------------------------

  /** Lexicographic order on (definition index, start height). */
  predicate Outranks(a: Epoch, b: Epoch) {
    || b.definitionIndex < a.definitionIndex
    || (b.definitionIndex == a.definitionIndex && b.startHeight <= a.startHeight)
  }

  /** `challenger` takes over height `h` from the `champion` found so far. */
  predicate TakesOver(champion: Option<Epoch>, challenger: Epoch, h: int) {
    challenger.startHeight <= h && (champion.None? || Outranks(challenger, champion.value))
  }

  /** The epoch in charge at height `h`, found by scanning the whole history in the order of addition. */
  function Scan(history: seq<Epoch>, h: int): Option<Epoch> {
    if history == [] then None else
      var champion := Scan(history[..|history| - 1], h);
      var challenger := history[|history| - 1];
      if TakesOver(champion, challenger, h) then Some(challenger) else champion
  }

  /** What the scan means: the greatest started epoch, the last added one among equals. */
  ghost predicate InCharge(history: seq<Epoch>, h: int, i: int) {
    && 0 <= i < |history|
    && history[i].startHeight <= h
    && (forall j :: 0 <= j < |history| && history[j].startHeight <= h ==>
                      || history[j].definitionIndex < history[i].definitionIndex
                      || (history[j].definitionIndex == history[i].definitionIndex &&
                          history[j].startHeight < history[i].startHeight)
                      || (history[j].definitionIndex == history[i].definitionIndex &&
                          history[j].startHeight == history[i].startHeight && j <= i))
  }

  /** The scan picks exactly the epoch in charge, and nothing only when no epoch has started. */
  lemma {:induction false} ScanPicksTheEpochInCharge(history: seq<Epoch>, h: int) returns (i: nat)
    ensures Scan(history, h).None? <==> forall e :: e in history ==> h < e.startHeight
    ensures Scan(history, h).Some? ==> InCharge(history, h, i) && Scan(history, h).value == history[i]
  {
    if history == [] {
      i := 0;
    } else {
      var n := |history| - 1;
      i := ScanPicksTheEpochInCharge(history[..n], h);
      assert history == history[..n] + [history[n]];
      if TakesOver(Scan(history[..n], h), history[n], h) {
        i := n;
        assert history[n] in history;
      }
    }
  }

  /** At most one position of a history is in charge of a height. */
  lemma InChargeIsUnique(history: seq<Epoch>, h: int, i: nat, j: nat)
    requires InCharge(history, h, i) && InCharge(history, h, j)
    ensures i == j
  {
  }

  lemma ScanSnoc(history: seq<Epoch>, e: Epoch, h: int)
    ensures Scan(history + [e], h) ==
            if TakesOver(Scan(history, h), e, h) then Some(e) else Scan(history, h)
  {
    assert (history + [e])[..|history|] == history;
  }

  /** An epoch is dominated when a later definition range already rules from its start on. */
  ghost predicate Dominated(history: seq<Epoch>, e: Epoch) {
    exists d :: d in history && e.definitionIndex < d.definitionIndex && d.startHeight <= e.startHeight
  }

  /** Adding a dominated epoch changes no answer. */
  lemma DominatedIsInvisible(history: seq<Epoch>, e: Epoch, h: int)
    requires Dominated(history, e)
    ensures Scan(history + [e], h) == Scan(history, h)
  {
    ScanSnoc(history, e, h);
    var i := ScanPicksTheEpochInCharge(history, h);
  }

  /** Epochs starting above `h` do not change the answer at `h`. */
  lemma {:induction false} LaterEpochsAreInvisible(history: seq<Epoch>, more: seq<Epoch>, h: int)
    requires forall e :: e in more ==> h < e.startHeight
    ensures Scan(history + more, h) == Scan(history, h)
  {
    if more == [] {
      assert history + more == history;
    } else {
      var n := |more| - 1;
      assert history + more == (history + more[..n]) + [more[n]];
      ScanSnoc(history + more[..n], more[n], h);
      LaterEpochsAreInvisible(history, more[..n], h);
    }
  }

  // ---------------------------------------------------------------------------
  // The staircase: the pruned history the oracle really keeps
  // ---------------------------------------------------------------------------

  /** Start heights strictly increase and definition indices never decrease. */
  ghost predicate IsStaircase(stairs: seq<Epoch>) {
    forall i, j :: 0 <= i < j < |stairs| ==>
                     stairs[i].startHeight < stairs[j].startHeight &&
                         stairs[i].definitionIndex <= stairs[j].definitionIndex
  }

  /** Number of leading stairs that start at or below `h`. */
  function Reached(stairs: seq<Epoch>, h: int): (n: nat)
    ensures n <= |stairs|
    ensures forall i :: 0 <= i < n ==> stairs[i].startHeight <= h
    ensures n < |stairs| ==> h < stairs[n].startHeight
  {
    ReachedFrom(stairs, 0, h)
  }

  function ReachedFrom(stairs: seq<Epoch>, from: nat, h: int): (n: nat)
    requires from <= |stairs|
    ensures from <= n <= |stairs|
    ensures forall i :: from <= i < n ==> stairs[i].startHeight <= h
    ensures n < |stairs| ==> h < stairs[n].startHeight
    decreases |stairs| - from
  {
    if from == |stairs| || h < stairs[from].startHeight then from else ReachedFrom(stairs, from + 1, h)
  }

  function Lookup(stairs: seq<Epoch>, h: int): Option<Epoch> {
    var n := Reached(stairs, h);
    if n == 0 then None else Some(stairs[n - 1])
  }

  /** Position of the first stair at or after `from` whose definition range is not lower than `index`. */
  function FirstNotLower(stairs: seq<Epoch>, from: nat, index: int): (n: nat)
    requires from <= |stairs|
    ensures from <= n <= |stairs|
    ensures forall i :: from <= i < n ==> stairs[i].definitionIndex < index
    ensures n < |stairs| ==> index <= stairs[n].definitionIndex
    decreases |stairs| - from
  {
    if from == |stairs| || index <= stairs[from].definitionIndex then from else FirstNotLower(stairs, from + 1, index)
  }

  /** Number of stairs that stay below `e`: all those that start strictly before it. */
  function Kept(stairs: seq<Epoch>, e: Epoch): (n: nat)
    ensures n <= Reached(stairs, e.startHeight)
  {
    var n := Reached(stairs, e.startHeight);
    if n > 0 && stairs[n - 1].startHeight == e.startHeight then n - 1 else n
  }

  /** Position of the first stair that outlives `e`: it starts later and is from no lower range. */
  function Outliving(stairs: seq<Epoch>, e: Epoch): (n: nat)
    ensures Reached(stairs, e.startHeight) <= n <= |stairs|
  {
    FirstNotLower(stairs, Reached(stairs, e.startHeight), e.definitionIndex)
  }

  predicate Relevant(stairs: seq<Epoch>, e: Epoch) {
    var n := Reached(stairs, e.startHeight);
    n == 0 || stairs[n - 1].definitionIndex <= e.definitionIndex
  }

  /** The staircase after adding `e`: unchanged, or `e` placed between what precedes it and what outlives it. */
  function AddStair(stairs: seq<Epoch>, e: Epoch): seq<Epoch> {
    if Relevant(stairs, e) then stairs[..Kept(stairs, e)] + [e] + stairs[Outliving(stairs, e)..] else stairs
  }

  ghost predicate StartsIncrease(stairs: seq<Epoch>) {
    forall i, j :: 0 <= i < j < |stairs| ==> stairs[i].startHeight < stairs[j].startHeight
  }

  lemma ReachedIs(stairs: seq<Epoch>, h: int, n: nat)
    requires StartsIncrease(stairs)
    requires n <= |stairs|
    requires n > 0 ==> stairs[n - 1].startHeight <= h
    requires n < |stairs| ==> h < stairs[n].startHeight
    ensures Reached(stairs, h) == n
  {
    hide Reached;
    var r := Reached(stairs, h);
    assert r <= n - 1 || n <= r;
  }

  /** Everything kept below `e` fits below it, everything that outlives `e` fits above it. */
  lemma NeighboursFit(stairs: seq<Epoch>, e: Epoch)
    requires IsStaircase(stairs) && Relevant(stairs, e)
    ensures forall i :: 0 <= i < Kept(stairs, e) ==>
                          stairs[i].startHeight < e.startHeight && stairs[i].definitionIndex <= e.definitionIndex
    ensures forall i :: Outliving(stairs, e) <= i < |stairs| ==>
                          e.startHeight < stairs[i].startHeight && e.definitionIndex <= stairs[i].definitionIndex
    ensures forall i :: Reached(stairs, e.startHeight) <= i < Outliving(stairs, e) ==>
                          stairs[i].definitionIndex < e.definitionIndex
  {
  }

  /** The relation holds between any two of the stairs, the earlier one first. */
  ghost predicate InOrder(stairs: seq<Epoch>, before: (Epoch, Epoch) -> bool) {
    forall i, j :: 0 <= i < j < |stairs| ==> before(stairs[i], stairs[j])
  }

  lemma SpliceInOrder(below: seq<Epoch>, e: Epoch, above: seq<Epoch>, before: (Epoch, Epoch) -> bool)
    requires InOrder(below, before) && InOrder(above, before)
    requires forall b :: b in below ==> before(b, e)
    requires forall a :: a in above ==> before(e, a)
    requires forall a, b :: b in below && a in above ==> before(b, a)
    ensures InOrder(below + [e] + above, before)
  {
    var s := below + [e] + above;
    forall i, j | 0 <= i < j < |s|
      ensures before(s[i], s[j])
    {
      var k := |below|;
      if i < k { assert s[i] == below[i] && s[i] in below; } else if k < i { assert s[i] == above[i - k - 1]; }
      if j < k { assert s[j] == below[j]; } else if k < j { assert s[j] == above[j - k - 1] && s[j] in above; }
    }
  }

  lemma SpliceIsStaircase(below: seq<Epoch>, e: Epoch, above: seq<Epoch>)
    requires IsStaircase(below) && IsStaircase(above)
    requires forall b :: b in below ==> b.startHeight < e.startHeight && b.definitionIndex <= e.definitionIndex
    requires forall a :: a in above ==> e.startHeight < a.startHeight && e.definitionIndex <= a.definitionIndex
    ensures IsStaircase(below + [e] + above)
  {
    var lower := (a: Epoch, b: Epoch) => a.startHeight < b.startHeight && a.definitionIndex <= b.definitionIndex;
    SpliceInOrder(below, e, above, lower);
    assert forall s: seq<Epoch> :: InOrder(s, lower) ==> IsStaircase(s);
  }

  lemma AddStairKeepsStaircase(stairs: seq<Epoch>, e: Epoch)
    requires IsStaircase(stairs)
    ensures IsStaircase(AddStair(stairs, e))
  {
    if Relevant(stairs, e) {
      NeighboursFit(stairs, e);
      SpliceIsStaircase(stairs[..Kept(stairs, e)], e, stairs[Outliving(stairs, e)..]);
    }
  }

  /** An epoch of the 5th range that starts at 10 stays when one of the 4th range that starts at 9 is added. */
  lemma LaterRangeStays(a: Address, b: Address)
    ensures AddStair([Epoch(10, [a], 5)], Epoch(9, [b], 4)) == [Epoch(9, [b], 4), Epoch(10, [a], 5)]
  {
    var stairs := [Epoch(10, [a], 5)];
    assert Reached(stairs, 9) == 0;
    assert Outliving(stairs, Epoch(9, [b], 4)) == 0;
  }

  lemma IrrelevantChangesNothing(stairs: seq<Epoch>, e: Epoch)
    ensures !Relevant(stairs, e) ==> AddStair(stairs, e) == stairs
  {
  }

  lemma StaircaseStartsIncrease(stairs: seq<Epoch>)
    requires IsStaircase(stairs)
    ensures StartsIncrease(stairs)
  {
  }

  /** One addition moves every answer of the staircase exactly as it moves the naive scan. */
  lemma AddStairAnswers(stairs: seq<Epoch>, e: Epoch, h: int)
    requires IsStaircase(stairs)
    ensures Lookup(AddStair(stairs, e), h) ==
            if TakesOver(Lookup(stairs, h), e, h) then Some(e) else Lookup(stairs, h)
  {
    if Relevant(stairs, e) {
      RelevantStairAnswers(stairs, e, h);
    } else {
      var n, m := Reached(stairs, e.startHeight), Reached(stairs, h);
      if e.startHeight <= h {
        assert n <= m;
        assert stairs[n - 1].definitionIndex <= stairs[m - 1].definitionIndex;
      }
    }
  }

  /** What is where after a relevant `e` has been added. */
  lemma AddedStairs(stairs: seq<Epoch>, e: Epoch)
    requires Relevant(stairs, e)
    ensures var after, k, d := AddStair(stairs, e), Kept(stairs, e), Outliving(stairs, e);
            && |after| == k + 1 + |stairs| - d && after[k] == e
            && (forall i :: 0 <= i < k ==> after[i] == stairs[i])
            && (forall i :: d <= i < |stairs| ==> after[k + 1 + (i - d)] == stairs[i])
  {
    hide Reached, FirstNotLower, Relevant;
    var after, k, d := AddStair(stairs, e), Kept(stairs, e), Outliving(stairs, e);
    assert after == stairs[..k] + [e] + stairs[d..];
  }

  lemma AddedStartsIncrease(stairs: seq<Epoch>, e: Epoch)
    requires IsStaircase(stairs)
    ensures StartsIncrease(AddStair(stairs, e)) && StartsIncrease(stairs)
  {
    AddStairKeepsStaircase(stairs, e);
  }

  lemma BeforeAddedStair(stairs: seq<Epoch>, e: Epoch, h: int)
    requires IsStaircase(stairs) && Relevant(stairs, e) && h < e.startHeight
    ensures Lookup(AddStair(stairs, e), h) == Lookup(stairs, h)
  {
    hide Reached, FirstNotLower, AddStair, IsStaircase, Outliving, Relevant;
    var after, k, m := AddStair(stairs, e), Kept(stairs, e), Reached(stairs, h);
    AddedStairs(stairs, e);
    AddedStartsIncrease(stairs, e);
    hide StartsIncrease;
    assert m <= k;
    ReachedIs(after, h, m);
  }

  lemma OnAddedStair(stairs: seq<Epoch>, e: Epoch, h: int)
    requires IsStaircase(stairs) && Relevant(stairs, e) && e.startHeight <= h &&
             Reached(stairs, h) <= Outliving(stairs, e)
    ensures Lookup(AddStair(stairs, e), h) == Some(e) && TakesOver(Lookup(stairs, h), e, h)
  {
    hide Reached, FirstNotLower, AddStair, Outliving, Kept;
    var after, m := AddStair(stairs, e), Reached(stairs, h);
    var k, d := Kept(stairs, e), Outliving(stairs, e);
    AddedStairs(stairs, e);
    AddedStartsIncrease(stairs, e);
    NeighboursFit(stairs, e);
    assert m < d < |stairs| ==> stairs[m].startHeight < stairs[d].startHeight;
    hide StartsIncrease, IsStaircase;
    ReachedIs(after, h, k + 1);
  }

  lemma BeyondAddedStair(stairs: seq<Epoch>, e: Epoch, h: int)
    requires IsStaircase(stairs) && Relevant(stairs, e) && e.startHeight <= h &&
             Outliving(stairs, e) < Reached(stairs, h)
    ensures Lookup(AddStair(stairs, e), h) == Lookup(stairs, h) && !TakesOver(Lookup(stairs, h), e, h)
  {
    hide Reached, FirstNotLower, AddStair, IsStaircase, Outliving, Relevant, Kept;
    var after, m := AddStair(stairs, e), Reached(stairs, h);
    var k, d := Kept(stairs, e), Outliving(stairs, e);
    AddedStairs(stairs, e);
    AddedStartsIncrease(stairs, e);
    NeighboursFit(stairs, e);
    hide StartsIncrease;
    assert after[k + 1 + (m - 1 - d)] == stairs[m - 1];
    assert m < |stairs| ==> after[k + 1 + (m - d)] == stairs[m];
    ReachedIs(after, h, k + 1 + (m - d));
  }

  lemma RelevantStairAnswers(stairs: seq<Epoch>, e: Epoch, h: int)
    requires IsStaircase(stairs) && Relevant(stairs, e)
    ensures Lookup(AddStair(stairs, e), h) ==
            if TakesOver(Lookup(stairs, h), e, h) then Some(e) else Lookup(stairs, h)
  {
    hide Lookup, AddStair, Outliving, IsStaircase, Relevant;
    if h < e.startHeight {
      BeforeAddedStair(stairs, e, h);
    } else if Reached(stairs, h) <= Outliving(stairs, e) {
      OnAddedStair(stairs, e, h);
    } else {
      BeyondAddedStair(stairs, e, h);
    }
  }

  /** The staircase built by adding a whole history. */
  function Build(history: seq<Epoch>): seq<Epoch> {
    if history == [] then [] else AddStair(Build(history[..|history| - 1]), history[|history| - 1])
  }

  lemma StairsOnlyFromEpochs(history: seq<Epoch>)
    ensures Build(history) == [] <==> history == []
  {
    if history != [] && Build(history[..|history| - 1]) != [] {
      var before, e := Build(history[..|history| - 1]), history[|history| - 1];
      assert Relevant(before, e) ==> AddStair(before, e)[Kept(before, e)] == e;
    }
  }

  /** The pruned staircase answers every height exactly like the scan of everything ever added. */
  lemma {:induction false} StaircaseRefinesScan(history: seq<Epoch>, h: int)
    ensures IsStaircase(Build(history))
    ensures Lookup(Build(history), h) == Scan(history, h)
  {
    if history != [] {
      var n := |history| - 1;
      StaircaseRefinesScan(history[..n], h);
      AddStairKeepsStaircase(Build(history[..n]), history[n]);
      AddStairAnswers(Build(history[..n]), history[n], h);
    }
  }

  // ---------------------------------------------------------------------------
  // The oracle
  // ---------------------------------------------------------------------------

  /** The staircase represented by sorted start heights and a table keyed by them. */
  ghost predicate Represents(heights: seq<int>, table: map<int, Epoch>, stairs: seq<Epoch>) {
    && |heights| == |stairs|
    && (forall i :: 0 <= i < |heights| ==> heights[i] == stairs[i].startHeight)
    && (forall i :: 0 <= i < |heights| ==> heights[i] in table && table[heights[i]] == stairs[i])
    && (forall k :: k in table ==> k in heights)
  }

  /** `bisect.bisect_right` on a sorted list: the first position whose entry exceeds `x`. */
  function BisectRight(heights: seq<int>, from: nat, x: int): (p: nat)
    requires from <= |heights|
    ensures from <= p <= |heights|
    ensures forall i :: from <= i < p ==> heights[i] <= x
    ensures p < |heights| ==> x < heights[p]
    decreases |heights| - from
  {
    if from == |heights| || x < heights[from] then from else BisectRight(heights, from + 1, x)
  }

  /** The staircase right after `e` was put in place and before the pruning. */
  ghost function Inserted(stairs: seq<Epoch>, e: Epoch): seq<Epoch> {
    stairs[..Kept(stairs, e)] + [e] + stairs[Reached(stairs, e.startHeight)..]
  }

  /** The stairs without those from position `n` up to, but not including, position `m`. */
  ghost function Cut(stairs: seq<Epoch>, n: nat, m: nat): seq<Epoch>
    requires n <= m <= |stairs|
  {
    stairs[..n] + stairs[m..]
  }

  lemma SpliceStartsIncrease(below: seq<Epoch>, e: Epoch, above: seq<Epoch>)
    requires StartsIncrease(below) && StartsIncrease(above)
    requires forall b :: b in below ==> b.startHeight < e.startHeight
    requires forall a :: a in above ==> e.startHeight < a.startHeight
    ensures StartsIncrease(below + [e] + above)
  {
    var earlier := (a: Epoch, b: Epoch) => a.startHeight < b.startHeight;
    SpliceInOrder(below, e, above, earlier);
    assert forall s: seq<Epoch> :: InOrder(s, earlier) ==> StartsIncrease(s);
  }

  lemma InsertedStartsIncrease(stairs: seq<Epoch>, e: Epoch)
    requires StartsIncrease(stairs)
    ensures StartsIncrease(Inserted(stairs, e))
  {
    hide Reached;
    var k, n := Kept(stairs, e), Reached(stairs, e.startHeight);
    assert forall i :: 0 <= i < k ==> stairs[i].startHeight < e.startHeight;
    assert forall i :: n <= i < |stairs| ==> e.startHeight < stairs[i].startHeight;
    SpliceStartsIncrease(stairs[..k], e, stairs[n..]);
  }

  /** Looking for the first outliving stair after the insertion finds the one there was before it. */
  lemma FirstNotLowerShifts(stairs: seq<Epoch>, from: nat, s: seq<Epoch>, from': nat, index: int)
    requires from <= |stairs| && from' <= |s| && |s| - from' == |stairs| - from
    requires forall i :: from <= i < |stairs| ==> s[i - from + from'] == stairs[i]
    ensures FirstNotLower(s, from', index) - from' == FirstNotLower(stairs, from, index) - from
    decreases |stairs| - from
  {
    if from < |stairs| && stairs[from].definitionIndex < index {
      assert s[from - from + from'] == stairs[from];
      FirstNotLowerShifts(stairs, from + 1, s, from' + 1, index);
    } else {
      assert from < |stairs| ==> s[from - from + from'] == stairs[from];
    }
  }

  /** Pruning the staircase that has just received a relevant `e` yields the specified one. */
  lemma PruningInserted(stairs: seq<Epoch>, e: Epoch)
    requires StartsIncrease(stairs) && Relevant(stairs, e)
    ensures var s := Inserted(stairs, e);
            var n := Reached(s, e.startHeight);
            Cut(s, n, FirstNotLower(s, n, e.definitionIndex)) == AddStair(stairs, e)
  {
    hide Reached, FirstNotLower, StartsIncrease, Inserted, Cut, Outliving;
    InsertedStartsIncrease(stairs, e);
    InsertedStairs(stairs, e);
    var k, r, s := Kept(stairs, e), Reached(stairs, e.startHeight), Inserted(stairs, e);
    ReachedIs(s, e.startHeight, k + 1);
    FirstNotLowerShifts(stairs, r, s, k + 1, e.definitionIndex);
    CutInserted(stairs, e, Outliving(stairs, e));
    OutlivingIs(stairs, e);
  }

  lemma OutlivingIs(stairs: seq<Epoch>, e: Epoch)
    ensures Outliving(stairs, e) == FirstNotLower(stairs, Reached(stairs, e.startHeight), e.definitionIndex)
    ensures Relevant(stairs, e) ==>
            AddStair(stairs, e) == stairs[..Kept(stairs, e)] + [e] + stairs[Outliving(stairs, e)..]
  {
    hide Reached, FirstNotLower;
  }

  /** What is where right after `e` was put in place. */
  lemma InsertedStairs(stairs: seq<Epoch>, e: Epoch)
    ensures var s, k, r := Inserted(stairs, e), Kept(stairs, e), Reached(stairs, e.startHeight);
            && |s| == k + 1 + |stairs| - r && s[k] == e
            && (forall i :: r <= i < |stairs| ==> s[i - r + (k + 1)] == stairs[i])
            && (r < |stairs| ==> s[k + 1] == stairs[r])
  {
    hide Reached, Kept;
  }

  lemma CutInserted(stairs: seq<Epoch>, e: Epoch, d: nat)
    requires Reached(stairs, e.startHeight) <= d <= |stairs|
    ensures var k, r := Kept(stairs, e), Reached(stairs, e.startHeight);
            && k + 1 + (d - r) <= |Inserted(stairs, e)|
            && Cut(Inserted(stairs, e), k + 1, k + 1 + (d - r)) == stairs[..k] + [e] + stairs[d..]
  {
    hide Reached, Kept;
    var k, r, s := Kept(stairs, e), Reached(stairs, e.startHeight), Inserted(stairs, e);
    assert s[..k + 1] == stairs[..k] + [e];
    assert s[k + 1 + (d - r)..] == stairs[d..];
  }

  /** The first position whose height exceeds `x` is the number of stairs reached at `x`. */
  lemma BisectIsReached(heights: seq<int>, stairs: seq<Epoch>, x: int)
    requires |heights| == |stairs| && forall i :: 0 <= i < |heights| ==> heights[i] == stairs[i].startHeight
    ensures BisectRight(heights, 0, x) == Reached(stairs, x)
  {
    hide Reached, BisectRight;
    var p, n := BisectRight(heights, 0, x), Reached(stairs, x);
  }

  /** The height of `e` is taken exactly when the last stair reached starts there. */
  lemma TakenHeight(heights: seq<int>, table: map<int, Epoch>, stairs: seq<Epoch>, e: Epoch)
    requires StartsIncrease(stairs) && Represents(heights, table, stairs)
    ensures e.startHeight in table <==> Kept(stairs, e) < Reached(stairs, e.startHeight)
  {
    hide Reached;
    var n := Reached(stairs, e.startHeight);
    if e.startHeight in table {
      var i :| 0 <= i < |heights| && heights[i] == e.startHeight;
      assert stairs[i].startHeight == e.startHeight;
      ReachedIs(stairs, e.startHeight, i + 1);
    }
  }

  /** Putting `e` into the list of heights, unless its height is there already, and into the table. */
  lemma InsertRepresents(heights: seq<int>, table: map<int, Epoch>, stairs: seq<Epoch>, e: Epoch)
    requires StartsIncrease(stairs) && Represents(heights, table, stairs)
    ensures var p := BisectRight(heights, 0, e.startHeight);
            var heights' := if e.startHeight in table then heights else heights[..p] + [e.startHeight] + heights[p..];
            Represents(heights', table[e.startHeight := e], Inserted(stairs, e))
  {
    hide Reached, BisectRight;
    BisectIsReached(heights, stairs, e.startHeight);
    TakenHeight(heights, table, stairs, e);
    var n := Reached(stairs, e.startHeight);
    if e.startHeight in table {
      ReplaceAtHeight(heights, table, stairs, e, n - 1);
    } else {
      InsertNewHeight(heights, table, stairs, e, n);
    }
  }

  lemma ReplaceAtHeight(heights: seq<int>, table: map<int, Epoch>, stairs: seq<Epoch>, e: Epoch, k: nat)
    requires StartsIncrease(stairs) && Represents(heights, table, stairs)
    requires k < |stairs| && stairs[k].startHeight == e.startHeight
    ensures Represents(heights, table[e.startHeight := e], stairs[..k] + [e] + stairs[k + 1..])
  {
    var table', s := table[e.startHeight := e], stairs[..k] + [e] + stairs[k + 1..];
    forall i | 0 <= i < |heights|
      ensures heights[i] == s[i].startHeight && heights[i] in table' && table'[heights[i]] == s[i]
    {
      if i != k {
        assert s[i] == stairs[i];
        assert heights[i] != heights[k];
      }
    }
  }

  lemma InsertNewHeight(heights: seq<int>, table: map<int, Epoch>, stairs: seq<Epoch>, e: Epoch, n: nat)
    requires Represents(heights, table, stairs)
    requires n <= |stairs| && e.startHeight !in table
    ensures Represents(heights[..n] + [e.startHeight] + heights[n..], table[e.startHeight := e],
            stairs[..n] + [e] + stairs[n..])
  {
    var heights', table', s := heights[..n] + [e.startHeight] + heights[n..], table[e.startHeight := e],
        stairs[..n] + [e] + stairs[n..];
    forall i | 0 <= i < |heights'|
      ensures heights'[i] == s[i].startHeight && heights'[i] in table' && table'[heights'[i]] == s[i]
    {
      if i < n { assert heights'[i] == heights[i]; } else if n < i { assert heights'[i] == heights[i - 1]; }
    }
    forall k | k in table'
      ensures k in heights'
    {
      if k in table {
        var i :| 0 <= i < |heights| && heights[i] == k;
        assert heights'[if i < n then i else i + 1] == k;
      } else {
        assert heights'[n] == k;
      }
    }
  }

  lemma CutStartsIncrease(stairs: seq<Epoch>, n: nat, m: nat)
    requires n <= m <= |stairs| && StartsIncrease(stairs)
    ensures StartsIncrease(Cut(stairs, n, m))
  {
    var s := Cut(stairs, n, m);
    forall i, j | 0 <= i < j < |s|
      ensures s[i].startHeight < s[j].startHeight
    {
      assert s[i] == stairs[if i < n then i else i - n + m];
      assert s[j] == stairs[if j < n then j else j - n + m];
    }
  }

  lemma TableIsEmpty(heights: seq<int>, table: map<int, Epoch>, stairs: seq<Epoch>)
    requires Represents(heights, table, stairs)
    ensures table.Keys == {} <==> stairs == []
  {
    if stairs == [] {
      assert forall k :: k in table ==> k in heights;
      assert table.Keys == {};
    } else {
      assert heights[0] in table;
    }
  }

  lemma RepresentedSize(heights: seq<int>, table: map<int, Epoch>, stairs: seq<Epoch>)
    requires Represents(heights, table, stairs)
    ensures |heights| == |stairs|
  {
  }

  lemma HeightsDiffer(heights: seq<int>, table: map<int, Epoch>, stairs: seq<Epoch>, i: nat, j: nat)
    requires Represents(heights, table, stairs) && StartsIncrease(stairs) && i < |stairs| && j < |stairs| && i != j
    ensures heights[i] != heights[j]
  {
  }

  lemma PopKeepsHeights(heights: seq<int>, table: map<int, Epoch>, j: nat)
    requires j < |heights| && forall k :: k in table ==> k in heights
    ensures forall k :: k in table - {heights[j]} ==> k in heights[..j] + heights[j + 1..]
  {
    var rest := heights[..j] + heights[j + 1..];
    forall k | k in table - {heights[j]}
      ensures k in rest
    {
      var i :| 0 <= i < |heights| && heights[i] == k;
      assert rest[if i < j then i else i - 1] == k;
    }
  }

  /** Popping one position from the heights and its height from the table. */
  lemma PopRepresents(heights: seq<int>, table: map<int, Epoch>, stairs: seq<Epoch>, j: nat)
    requires Represents(heights, table, stairs) && StartsIncrease(stairs)
    requires j < |stairs|
    ensures Represents(heights[..j] + heights[j + 1..], table - {heights[j]}, Cut(stairs, j, j + 1))
  {
    var heights', table', s := heights[..j] + heights[j + 1..], table - {heights[j]}, Cut(stairs, j, j + 1);
    PopKeepsHeights(heights, table, j);
    hide StartsIncrease;
    forall i | 0 <= i < |heights'|
      ensures heights'[i] == s[i].startHeight && heights'[i] in table' && table'[heights'[i]] == s[i]
    {
      var i' := if i < j then i else i + 1;
      assert heights'[i] == heights[i'] && s[i] == stairs[i'];
      HeightsDiffer(heights, table, stairs, i', j);
    }
  }

  /** What `GetValidators` answers for a history of added epochs and a known maximum height. */
  function ValidatorsAt(history: seq<Epoch>, maxHeight: int, h: int): Result<seq<Address>> {
    if history == [] then Failure(NoEpochs)
    else if maxHeight < h then Failure(HeightUnknown)
    else
      match Scan(history, h)
      case None => Failure(BeforeFirstEpoch)
      case Some(epoch) => Success(epoch.validators)
  }

  /** Whose turn it is: the validators take turns by step number. */
  function PrimaryAt(history: seq<Epoch>, maxHeight: int, h: int, step: int): Result<Address> {
    var r := ValidatorsAt(history, maxHeight, h);
    if r.Failure? then Failure(r.error)
    else if r.value == [] then Failure(EmptyValidatorSet)
    else Success(r.value[step % |r.value|])
  }

  class PrimaryOracle {
    var epochs: map<int, Epoch>
    var orderedStartHeights: seq<int>
    var maxHeight: int
    ghost var added: seq<Epoch>  // every epoch ever added, in order

    ghost predicate Valid()
      reads this`epochs, this`orderedStartHeights, this`added
    {
      && Represents(orderedStartHeights, epochs, Build(added))
      && IsStaircase(Build(added))
      && (forall e :: e in added ==> e.validators != [])
    }

    constructor ()
      ensures Valid()
      ensures added == [] && maxHeight == 0
    {
      epochs, orderedStartHeights, maxHeight, added := map[], [], 0, [];
    }

    /** The last start height that is at most `h`, if any. */
    method LastStartHeight(h: int) returns (r: Option<int>)
      requires Valid()
      ensures Lookup(Build(added), h).None? <==> r.None?
      ensures r.Some? ==> r.value in epochs && Lookup(Build(added), h) == Some(epochs[r.value])
    {
      hide Build, IsStaircase;
      r := None;
      var i := 0;
      while i < |orderedStartHeights| && orderedStartHeights[i] <= h
        invariant 0 <= i <= |orderedStartHeights|
        invariant ReachedFrom(Build(added), i, h) == Reached(Build(added), h)
        invariant r == if i == 0 then None else Some(orderedStartHeights[i - 1])
      {
        r := Some(orderedStartHeights[i]);
        i := i + 1;
      }
    }

    /** The validators of the epoch in charge at `h` among all epochs ever added. */
    method GetValidators(h: int) returns (r: Result<seq<Address>>)
      requires Valid()
      // the answer is that of the one epoch in charge, and each error has its case
      ensures r.Success? ==> h <= maxHeight && exists i :: InCharge(added, h, i) && r.value == added[i].validators
      ensures r == Failure(NoEpochs) <==> added == []
      ensures r == Failure(HeightUnknown) <==> added != [] && maxHeight < h
      ensures r == Failure(BeforeFirstEpoch) <==>
                added != [] && h <= maxHeight && forall e :: e in added ==> h < e.startHeight
      ensures r.Failure? ==> r.error in {NoEpochs, HeightUnknown, BeforeFirstEpoch}
      ensures r == ValidatorsAt(added, maxHeight, h)
      ensures r.Success? ==> r.value != []
    {
      StairsOnlyFromEpochs(added);
      TableIsEmpty(orderedStartHeights, epochs, Build(added));
      if epochs.Keys == {} {
        return Failure(NoEpochs);
      }
      if maxHeight < h {
        return Failure(HeightUnknown);
      }
      hide Represents, IsStaircase;
      StaircaseRefinesScan(added, h);
      ghost var i := ScanPicksTheEpochInCharge(added, h);
      var start := LastStartHeight(h);
      match start
      case None =>
        return Failure(BeforeFirstEpoch);
      case Some(s) =>
        return Success(epochs[s].validators);
    }

    /** The validator whose turn it is at `step`, among those in charge at `height`. */
    method GetPrimary(height: int, step: int) returns (r: Result<Address>)
      requires Valid()
      ensures r.Success? ==>
                height <= maxHeight &&
                exists i :: InCharge(added, height, i) && added[i].validators != [] &&
                            r.value == added[i].validators[step % |added[i].validators|]
      ensures r == Failure(NoEpochs) <==> added == []
      ensures r == Failure(HeightUnknown) <==> added != [] && maxHeight < height
      ensures r == Failure(BeforeFirstEpoch) <==>
                added != [] && height <= maxHeight && forall e :: e in added ==> height < e.startHeight
      ensures r.Failure? ==> r.error in {NoEpochs, HeightUnknown, BeforeFirstEpoch}
      ensures r == PrimaryAt(added, maxHeight, height, step)
    {
      var validators :- GetValidators(height);
      return Success(validators[step % |validators|]);
    }

    /** The epoch is relevant unless the one preceding it stems from a later definition range. */
    method IsRelevant(epoch: Epoch) returns (relevant: bool)
      requires Valid()
      ensures relevant == Relevant(Build(added), epoch)
    {
      hide Represents, IsStaircase, Reached, Build;
      var previous := LastStartHeight(epoch.startHeight);
      match previous
      case None =>
        return true;
      case Some(s) =>
        return epochs[s].definitionIndex <= epoch.definitionIndex;
    }

    /** Adds an epoch if it is relevant and drops the epochs it renders irrelevant. */
    method AddEpoch(epoch: Epoch) returns (r: Result<()>)
      requires Valid()
      modifies this
      ensures r.Failure? <==> epoch.validators == []
      ensures r.Failure? ==> r.error == EmptyValidatorSet && unchanged(this)
      ensures r.Success? ==> Valid() && added == old(added) + [epoch] && maxHeight == old(maxHeight)
    {
      hide IsStaircase, StartsIncrease, Represents, Reached, FirstNotLower, Inserted, AddStair, BisectRight, Cut;
      if epoch.validators == [] {
        return Failure(EmptyValidatorSet);
      }
      ghost var before := Build(added);
      assert (added + [epoch])[..|added|] == added;
      AddStairKeepsStaircase(before, epoch);
      StaircaseStartsIncrease(before);
      IrrelevantChangesNothing(before, epoch);
      assert Build(added + [epoch]) == AddStair(before, epoch);
      var relevant := IsRelevant(epoch);
      if relevant {
        InsertRepresents(orderedStartHeights, epochs, before, epoch);
        if epoch.startHeight !in epochs {
          var p := BisectRight(orderedStartHeights, 0, epoch.startHeight);
          orderedStartHeights := orderedStartHeights[..p] + [epoch.startHeight] + orderedStartHeights[p..];
        }
        epochs := epochs[epoch.startHeight := epoch];
        InsertedStartsIncrease(before, epoch);
        PruningInserted(before, epoch);
        RemoveEpochsRenderedIrrelevant(epoch, Inserted(before, epoch));
      }
      added := added + [epoch];
      return Success(());
    }

    /** The first position whose epoch starts after `h`. */
    method FirstLater(h: int, ghost stairs: seq<Epoch>) returns (i: nat)
      requires Represents(orderedStartHeights, epochs, stairs)
      ensures i == Reached(stairs, h)
    {
      i := 0;
      while i < |orderedStartHeights| && orderedStartHeights[i] <= h
        invariant 0 <= i <= |stairs|
        invariant ReachedFrom(stairs, i, h) == Reached(stairs, h)
      {
        i := i + 1;
      }
    }

    /** The consecutive positions from `from` on whose epochs stem from a lower definition range. */
    method LowerIndices(from: nat, index: int, ghost stairs: seq<Epoch>) returns (indices: seq<nat>)
      requires Represents(orderedStartHeights, epochs, stairs) && from <= |stairs|
      ensures from + |indices| == FirstNotLower(stairs, from, index)
      ensures forall k :: 0 <= k < |indices| ==> indices[k] == from + k
    {
      indices := [];
      var i := from;
      while i < |orderedStartHeights| && epochs[orderedStartHeights[i]].definitionIndex < index
        invariant from <= i <= |stairs|
        invariant FirstNotLower(stairs, i, index) == FirstNotLower(stairs, from, index)
        invariant |indices| == i - from
        invariant forall k :: 0 <= k < |indices| ==> indices[k] == from + k
      {
        indices := indices + [i];
        i := i + 1;
      }
    }

    /** Drops the epochs that start after `inserted` up to the first one not from a lower definition range. */
    method RemoveEpochsRenderedIrrelevant(inserted: Epoch, ghost stairs: seq<Epoch>)
      requires Represents(orderedStartHeights, epochs, stairs) && StartsIncrease(stairs)
      modifies this`epochs, this`orderedStartHeights
      ensures var n := Reached(stairs, inserted.startHeight);
              Represents(orderedStartHeights, epochs,
                  Cut(stairs, n, FirstNotLower(stairs, n, inserted.definitionIndex)))
    {
      hide StartsIncrease, Represents;
      var n := FirstLater(inserted.startHeight, stairs);
      var indicesToRemove := LowerIndices(n, inserted.definitionIndex, stairs);
      PopAll(indicesToRemove, stairs, n);
    }

    /** Pops the given consecutive positions, the last one first. */
    method PopAll(indices: seq<nat>, ghost stairs: seq<Epoch>, ghost n: nat)
      requires Represents(orderedStartHeights, epochs, stairs) && StartsIncrease(stairs)
      requires n + |indices| <= |stairs|
      requires forall k :: 0 <= k < |indices| ==> indices[k] == n + k
      modifies this`epochs, this`orderedStartHeights
      ensures Represents(orderedStartHeights, epochs, Cut(stairs, n, n + |indices|))
    {
      hide StartsIncrease, Represents;
      ghost var m := n + |indices|;
      assert Cut(stairs, m, m) == stairs;
      var k := |indices|;
      while k > 0
        invariant 0 <= k <= |indices|
        invariant Represents(orderedStartHeights, epochs, Cut(stairs, n + k, m))
      {
        k := k - 1;
        var index := indices[k];
        ghost var now := Cut(stairs, n + k + 1, m);
        assert Cut(now, n + k, n + k + 1) == Cut(stairs, n + k, m);
        CutStartsIncrease(stairs, n + k + 1, m);
        RepresentedSize(orderedStartHeights, epochs, now);
        PopRepresents(orderedStartHeights, epochs, now, index);
        var removed := orderedStartHeights[index];
        orderedStartHeights := orderedStartHeights[..index] + orderedStartHeights[index + 1..];
        epochs := epochs - {removed};
      }
    }
  }
}
