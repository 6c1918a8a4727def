/** Reports the steps in which no block was proposed in time (src/monitor/skip_reporter.py). */
module SkipReporter {
  import opened Basics
  import opened PrimaryOracle

  datatype SkippedProposal = SkippedProposal(step: int, blockHeight: int)

  // ---------------------------------------------------------------------------
  // Which steps are missed, said without any bookkeeping
  // ---------------------------------------------------------------------------

  /** The blocks that count: all but genesis blocks and blocks of step 0 ahead of the first real step. */
  function Counted(seen: seq<Block>): seq<Block> {
    if seen == [] then [] else
      var counted := Counted(seen[..|seen| - 1]);
      var b := seen[|seen| - 1];
      if b.number == 0 || (counted == [] && b.step == 0) then counted else counted + [b]
  }

  /** Position of the first block whose step exceeds `x`; the number of blocks if there is none. */
  function FirstAbove(blocks: seq<Block>, x: int): (k: nat)
    ensures k <= |blocks|
    ensures forall i :: 0 <= i < k ==> blocks[i].step <= x
    ensures k < |blocks| ==> x < blocks[k].step
  {
    if blocks == [] then 0 else
      var k := FirstAbove(blocks[..|blocks| - 1], x);
      if k < |blocks| - 1 || x < blocks[|blocks| - 1].step then k else |blocks|
  }

  function LatestStep(blocks: seq<Block>): (l: nat)
    ensures forall i :: 0 <= i < |blocks| ==> blocks[i].step <= l
    ensures blocks != [] ==> exists i :: 0 <= i < |blocks| && blocks[i].step == l
    ensures blocks == [] ==> l == 0
  {
    if blocks == [] then 0 else
      var l := LatestStep(blocks[..|blocks| - 1]);
      if l < blocks[|blocks| - 1].step then blocks[|blocks| - 1].step else l
  }

  /** No block up to and including position `k` carries `step`. */
  ghost predicate NotProposedUpTo(blocks: seq<Block>, k: nat, step: int) {
    forall i :: 0 <= i <= k && i < |blocks| ==> blocks[i].step != step
  }

  /**
   * The proposal was missed: its step comes after the first one, some block is later than its grace
   * period, and no block up to the first such one carries its step. Its height is that of the first
   * block that was later than the step itself.
   */
  ghost predicate Missed(blocks: seq<Block>, grace: nat, p: SkippedProposal) {
    && blocks != [] && blocks[0].step < p.step
    && FirstAbove(blocks, p.step + grace) < |blocks|
    && NotProposedUpTo(blocks, FirstAbove(blocks, p.step + grace), p.step)
    && FirstAbove(blocks, p.step) < |blocks|
    && p.blockHeight == blocks[FirstAbove(blocks, p.step)].number
  }

  /** The proposal is overdue but still within its grace period. */
  ghost predicate Open(blocks: seq<Block>, grace: nat, p: SkippedProposal) {
    && blocks != [] && blocks[0].step < p.step < LatestStep(blocks) <= p.step + grace
    && NotProposedUpTo(blocks, |blocks|, p.step)
    && FirstAbove(blocks, p.step) < |blocks|
    && p.blockHeight == blocks[FirstAbove(blocks, p.step)].number
  }

  /** The step was proposed before its grace period ended. */
  ghost predicate SeenInTime(blocks: seq<Block>, grace: nat, step: int) {
    exists i :: 0 <= i < |blocks| && i <= FirstAbove(blocks, step + grace) && blocks[i].step == step
  }

  ghost predicate StepsIncrease(proposals: seq<SkippedProposal>) {
    forall i, j :: 0 <= i < j < |proposals| ==> proposals[i].step < proposals[j].step
  }

  /** The proposals are exactly the missed ones, each once and in the order of their steps. */
  ghost predicate IsReportOf(blocks: seq<Block>, grace: nat, proposals: seq<SkippedProposal>) {
    && StepsIncrease(proposals)
    && (forall p :: p in proposals <==> Missed(blocks, grace, p))
  }

  /** Nothing counts before the first block that has both a number and a step. */
  lemma {:induction false} NothingCounts(seen: seq<Block>)
    ensures Counted(seen) == [] <==> forall i :: 0 <= i < |seen| ==> seen[i].number == 0 || seen[i].step == 0
  {
    if seen != [] {
      NothingCounts(seen[..|seen| - 1]);
    }
  }

  /** From that block on all blocks but genesis blocks count. */
  lemma CountedMeans(seen: seq<Block>)
    ensures seen == [] ==> Counted(seen) == []
    ensures seen != [] ==>
              var before, b := seen[..|seen| - 1], seen[|seen| - 1];
              var ignored := b.number == 0 ||
                             forall i :: 0 <= i < |seen| ==> seen[i].number == 0 || seen[i].step == 0;
              Counted(seen) == if ignored then Counted(before) else Counted(before) + [b]
  {
    if seen != [] {
      NothingCounts(seen[..|seen| - 1]);
    }
  }

  /**
   * The `k`th block is the first one whose step exceeds the grace period of the missed step, which no
   * block up to it carries; the height is that of the `m`th block, the first whose step exceeds the step.
   */
  ghost predicate IsMissedAt(blocks: seq<Block>, grace: nat, p: SkippedProposal, k: int, m: int) {
    && 0 <= m <= k < |blocks|
    && p.step + grace < blocks[k].step && (forall i :: 0 <= i < k ==> blocks[i].step <= p.step + grace)
    && p.step < blocks[m].step && (forall i :: 0 <= i < m ==> blocks[i].step <= p.step)
    && (forall i :: 0 <= i <= k ==> blocks[i].step != p.step)
    && p.blockHeight == blocks[m].number
  }

  lemma MissedMeans(blocks: seq<Block>, grace: nat, p: SkippedProposal)
    ensures Missed(blocks, grace, p) <==>
              blocks != [] && blocks[0].step < p.step && exists k, m :: IsMissedAt(blocks, grace, p, k, m)
  {
    hide FirstAbove;
    var k, m := FirstAbove(blocks, p.step + grace), FirstAbove(blocks, p.step);
    if Missed(blocks, grace, p) {
      assert IsMissedAt(blocks, grace, p, k, m);
    }
    if k', m' :| IsMissedAt(blocks, grace, p, k', m') {
      assert k == k' && m == m';
    }
  }

  /**
   * Every step strictly between the first and the latest one is in exactly one state: proposed in
   * time, still open, or missed. An open or missed step has exactly one height.
   */
  lemma StepAccounting(blocks: seq<Block>, grace: nat, step: int)
    requires blocks != [] && blocks[0].step < step < LatestStep(blocks)
    ensures var height := SkippedProposal(step, blocks[FirstAbove(blocks, step)].number);
            && FirstAbove(blocks, step) < |blocks|
            && (forall h :: Open(blocks, grace, SkippedProposal(step, h)) ==> SkippedProposal(step, h) == height)
            && (forall h :: Missed(blocks, grace, SkippedProposal(step, h)) ==> SkippedProposal(step, h) == height)
            && (SeenInTime(blocks, grace, step) || Open(blocks, grace, height) || Missed(blocks, grace, height))
            && !(SeenInTime(blocks, grace, step) && Open(blocks, grace, height))
            && !(SeenInTime(blocks, grace, step) && Missed(blocks, grace, height))
            && !(Open(blocks, grace, height) && Missed(blocks, grace, height))
  {
    hide FirstAbove, LatestStep;
    var l :| 0 <= l < |blocks| && blocks[l].step == LatestStep(blocks);
    var k := FirstAbove(blocks, step + grace);
    if k == |blocks| {
      if !NotProposedUpTo(blocks, |blocks|, step) {
        var i :| 0 <= i < |blocks| && blocks[i].step == step;
        assert SeenInTime(blocks, grace, step);
      }
    }
  }

  // ---------------------------------------------------------------------------
  // How one more block changes the picture
  // ---------------------------------------------------------------------------

  lemma FirstAboveSnoc(blocks: seq<Block>, b: Block, x: int)
    ensures FirstAbove(blocks + [b], x) ==
            if FirstAbove(blocks, x) < |blocks| then FirstAbove(blocks, x)
            else if x < b.step then |blocks| else |blocks| + 1
  {
    assert (blocks + [b])[..|blocks|] == blocks;
  }

  lemma LatestStepSnoc(blocks: seq<Block>, b: Block)
    ensures LatestStep(blocks + [b]) == if LatestStep(blocks) < b.step then b.step else LatestStep(blocks)
  {
    assert (blocks + [b])[..|blocks|] == blocks;
  }

  lemma CountedSnoc(seen: seq<Block>, b: Block)
    ensures Counted(seen + [b]) ==
            if b.number == 0 || (Counted(seen) == [] && b.step == 0) then Counted(seen) else Counted(seen) + [b]
  {
    assert (seen + [b])[..|seen|] == seen;
  }

  /** The first block that counts has a positive step. */
  lemma {:induction false} CountedStartsPositive(seen: seq<Block>)
    ensures Counted(seen) != [] ==> Counted(seen)[0].step > 0
  {
    if seen != [] {
      CountedStartsPositive(seen[..|seen| - 1]);
    }
  }

  /** With `b` arriving, the proposal is on the list: it was open or is opened by `b`, and is not made by `b`. */
  ghost predicate Pending(blocks: seq<Block>, grace: nat, b: Block, p: SkippedProposal) {
    && (Open(blocks, grace, p) || (LatestStep(blocks) < p.step < b.step && p.blockHeight == b.number))
    && p.step != b.step
  }

  /** A block splits the pending proposals into those missed now and those still open, and unmakes no miss. */
  lemma BlockSplitsPending(blocks: seq<Block>, grace: nat, b: Block, p: SkippedProposal)
    requires blocks != []
    ensures Open(blocks + [b], grace, p) <==>
            Pending(blocks, grace, b, p) && LatestStep(blocks + [b]) <= p.step + grace
    ensures Missed(blocks + [b], grace, p) <==>
            Missed(blocks, grace, p) || (Pending(blocks, grace, b, p) && p.step + grace < LatestStep(blocks + [b]))
  {
    hide FirstAbove, LatestStep;
    var after := blocks + [b];
    FirstAboveSnoc(blocks, b, p.step);
    FirstAboveSnoc(blocks, b, p.step + grace);
    LatestStepSnoc(blocks, b);
    assert after[|blocks|] == b;
    assert forall i :: 0 <= i < |blocks| ==> after[i] == blocks[i];
  }

  lemma NothingCountedYet(seen: seq<Block>)
    ensures LatestStep(Counted(seen)) == 0 <==> Counted(seen) == []
  {
    hide LatestStep, Counted;
    CountedStartsPositive(seen);
  }

  /** Neither without blocks nor with a single one is anything open or missed. */
  lemma FirstBlockIsAccounted(b: Block, grace: nat, open: set<SkippedProposal>, reported: seq<SkippedProposal>)
    requires IsReportOf([], grace, reported)
    requires forall p :: p in open <==> Open([], grace, p)
    ensures LatestStep([] + [b]) == b.step
    ensures forall p :: p in open <==> Open([] + [b], grace, p)
    ensures IsReportOf([] + [b], grace, reported)
  {
    LatestStepSnoc([], b);
    FirstBlockMissesNothing(b, grace);
  }

  lemma FirstBlockMissesNothing(b: Block, grace: nat)
    ensures forall p :: !Missed([] + [b], grace, p)
  {
    hide FirstAbove;
    assert ([] + [b])[0] == b;
  }

  lemma OpenBecomesPending(blocks: seq<Block>, grace: nat, b: Block, before: set<SkippedProposal>,
      after: set<SkippedProposal>)
    requires forall p :: p in before <==> Open(blocks, grace, p)
    requires forall p :: p in after <==>
                           && p in before +
                                   (set s: int | LatestStep(blocks) < s < b.step :: SkippedProposal(s, b.number))
                           && p.step != b.step
    ensures forall p :: p in after <==> Pending(blocks, grace, b, p)
  {
    hide Open, LatestStep;
    forall p
      ensures p in after <==> Pending(blocks, grace, b, p)
    {
      assert LatestStep(blocks) < p.step < b.step && p.blockHeight == b.number ==>
          p == SkippedProposal(p.step, b.number);
    }
  }

  /** Whatever is reported from now on is later than all that was reported before. */
  lemma MissesComeInOrder(blocks: seq<Block>, grace: nat, b: Block, earlier: SkippedProposal, later: SkippedProposal)
    requires blocks != [] && Missed(blocks, grace, earlier) && Pending(blocks, grace, b, later)
    ensures earlier.step < later.step
  {
    hide FirstAbove, LatestStep;
    assert blocks[FirstAbove(blocks, earlier.step + grace)].step <= LatestStep(blocks);
  }

  /** Pending proposals differ in their steps. */
  lemma PendingStepsDiffer(blocks: seq<Block>, grace: nat, b: Block, p: SkippedProposal, q: SkippedProposal)
    requires Pending(blocks, grace, b, p) && Pending(blocks, grace, b, q) && p.step == q.step
    ensures p == q
  {
    hide FirstAbove, LatestStep;
  }

  /** Pending proposals that ascend by step increase. */
  lemma PendingIncrease(blocks: seq<Block>, grace: nat, b: Block, proposals: seq<SkippedProposal>)
    requires StepsAscend(proposals) && forall p :: p in proposals ==> Pending(blocks, grace, b, p)
    ensures StepsIncrease(proposals)
  {
    hide Pending;
    forall i, j | 0 <= i < j < |proposals|
      ensures proposals[i].step < proposals[j].step
    {
      assert proposals[i] in proposals && proposals[j] in proposals;
      if proposals[i].step == proposals[j].step {
        PendingStepsDiffer(blocks, grace, b, proposals[i], proposals[j]);
      }
    }
  }

  // ---------------------------------------------------------------------------
  // Sorting by step
  // ---------------------------------------------------------------------------

  /** Inserts `p` behind all proposals of smaller steps. */
  function InsertByStep(proposals: seq<SkippedProposal>, p: SkippedProposal): seq<SkippedProposal> {
    if proposals == [] || proposals[|proposals| - 1].step < p.step then proposals + [p]
    else InsertByStep(proposals[..|proposals| - 1], p) + [proposals[|proposals| - 1]]
  }

  ghost predicate StepsAscend(proposals: seq<SkippedProposal>) {
    forall i, j :: 0 <= i < j < |proposals| ==> proposals[i].step <= proposals[j].step && proposals[i] != proposals[j]
  }

  lemma {:induction false} InsertKeepsStepsAscending(proposals: seq<SkippedProposal>, p: SkippedProposal)
    requires StepsAscend(proposals) && p !in proposals
    ensures StepsAscend(InsertByStep(proposals, p))
    ensures forall q :: q in InsertByStep(proposals, p) <==> q in proposals || q == p
  {
    if proposals != [] {
      var n := |proposals| - 1;
      assert proposals == proposals[..n] + [proposals[n]];
      assert proposals[n] in proposals;
      if p.step <= proposals[n].step {
        InsertKeepsStepsAscending(proposals[..n], p);
        var s := InsertByStep(proposals[..n], p);
        forall i | 0 <= i < |s|
          ensures s[i].step <= proposals[n].step && s[i] != proposals[n]
        {
          assert s[i] in s;
        }
      }
    }
  }

  method SortedByStep(proposals: set<SkippedProposal>) returns (sorted: seq<SkippedProposal>)
    ensures StepsAscend(sorted)
    ensures forall p :: p in sorted <==> p in proposals
  {
    sorted := [];
    var rest := proposals;
    while rest != {}
      invariant rest <= proposals
      invariant StepsAscend(sorted)
      invariant forall p :: p in sorted <==> p in proposals && p !in rest
      decreases rest
    {
      var p :| p in rest;
      InsertKeepsStepsAscending(sorted, p);
      sorted := InsertByStep(sorted, p);
      rest := rest - {p};
    }
  }

  // ---------------------------------------------------------------------------
  // The reporter
  // ---------------------------------------------------------------------------

  /** A call to the report callbacks. */
  datatype SkipReport = SkipReport(primary: Address, proposal: SkippedProposal)

  function ProposalsOf(reports: seq<SkipReport>): (proposals: seq<SkippedProposal>)
    ensures |proposals| == |reports|
    ensures forall i :: 0 <= i < |reports| ==> proposals[i] == reports[i].proposal
  {
    seq(|reports|, i requires 0 <= i < |reports| => reports[i].proposal)
  }

  /** Each report blames whose turn it was. */
  ghost predicate BlamesPrimaries(oracle: PrimaryOracle, reports: seq<SkipReport>)
    reads oracle
  {
    forall i :: 0 <= i < |reports| ==>
                  PrimaryAt(oracle.added, oracle.maxHeight, reports[i].proposal.blockHeight, reports[i].proposal.step)
                  == Success(reports[i].primary)
  }

  class SkipReporter {
    const gracePeriod: nat
    var latestStep: int
    var openSkippedProposals: set<SkippedProposal>
    ghost var seen: seq<Block>                   // every block the reporter was called with
    ghost var reported: seq<SkippedProposal>     // every proposal reported so far

    /** The bookkeeping agrees with the declarative account of the blocks that count. */
    ghost predicate Accounts(blocks: seq<Block>)
      reads this`latestStep, this`openSkippedProposals, this`reported
    {
      && latestStep == LatestStep(blocks)
      && (forall p :: p in openSkippedProposals <==> Open(blocks, gracePeriod, p))
      && IsReportOf(blocks, gracePeriod, reported)
    }

    ghost predicate Valid()
      reads this
    {
      Accounts(Counted(seen))
    }

    constructor (gracePeriod: nat)
      ensures Valid() && seen == [] && reported == [] && this.gracePeriod == gracePeriod
    {
      this.gracePeriod := gracePeriod;
      latestStep, openSkippedProposals := 0, {};
      seen, reported := [], [];
    }

    /** Takes in one block and reports the proposals that are missed now, in the order of their steps. */
    method OnBlock(block: Block, oracle: PrimaryOracle) returns (r: Result<seq<SkipReport>>)
      requires Valid() && oracle.Valid()
      modifies this
      ensures r.Success? ==> Valid() && seen == old(seen) + [block]
      ensures r.Success? ==> reported == old(reported) + ProposalsOf(r.value) && BlamesPrimaries(oracle, r.value)
      ensures r.Failure? ==>
                exists p :: Missed(Counted(old(seen) + [block]), gracePeriod, p) && p !in old(reported) &&
                            PrimaryAt(oracle.added, oracle.maxHeight, p.blockHeight, p.step) == Failure(r.error)
    {
      hide Open, Missed, LatestStep, Counted, IsReportOf;
      ghost var blocks := Counted(seen);
      CountedSnoc(seen, block);
      CountedStartsPositive(seen);
      seen := seen + [block];
      if block.number == 0 {
        return Success([]);
      }
      if latestStep == 0 {
        NothingCountedYet(old(seen));
        FirstBlockIsAccounted(block, gracePeriod, openSkippedProposals, reported);
        latestStep := block.step;
        return Success([]);
      }
      NothingCountedYet(old(seen));
      r := OnLaterBlock(block, blocks, oracle);
    }

    /** Takes in a block that counts and is not the first one that does. */
    method OnLaterBlock(block: Block, ghost blocks: seq<Block>, oracle: PrimaryOracle)
      returns (r: Result<seq<SkipReport>>)
      requires blocks != [] && Accounts(blocks) && oracle.Valid()
      modifies this`latestStep, this`openSkippedProposals, this`reported
      ensures r.Success? ==> Accounts(blocks + [block])
      ensures r.Success? ==> reported == old(reported) + ProposalsOf(r.value) && BlamesPrimaries(oracle, r.value)
      ensures r.Failure? ==>
                exists p :: Missed(blocks + [block], gracePeriod, p) && p !in old(reported) &&
                            PrimaryAt(oracle.added, oracle.maxHeight, p.blockHeight, p.step) == Failure(r.error)
    {
      hide Open, Missed, LatestStep, IsReportOf, Pending, PrimaryAt, ProposalsOf, BlamesPrimaries;
      LatestStepSnoc(blocks, block);
      var missed := MissedNow(block, blocks);
      var reports := Report(missed, oracle);
      if reports.Success? {
        openSkippedProposals := openSkippedProposals - (set p | p in missed);
        reported := reported + missed;
      }
      return reports;
    }

    /** Updates the open proposals and picks those whose grace period has ended. */
    method MissedNow(block: Block, ghost blocks: seq<Block>) returns (missed: seq<SkippedProposal>)
      requires blocks != [] && Accounts(blocks)
      modifies this`latestStep, this`openSkippedProposals
      ensures latestStep == LatestStep(blocks + [block])
      ensures forall p :: p in openSkippedProposals && p !in missed <==> Open(blocks + [block], gracePeriod, p)
      ensures IsReportOf(blocks + [block], gracePeriod, reported + missed)
      ensures forall p :: p in missed ==> Missed(blocks + [block], gracePeriod, p) && p !in reported
    {
      hide Open, Missed, LatestStep, IsReportOf, Pending;
      LatestStepSnoc(blocks, block);
      UpdateOpenSkippedProposals(block.step, block.number);
      RemoveOpenSkippedProposalsWithStep(block.step);
      OpenBecomesPending(blocks, gracePeriod, block, old(openSkippedProposals), openSkippedProposals);
      missed := GetMissedProposals();
      PendingIncrease(blocks, gracePeriod, block, missed);
      BlockIsAccounted(blocks, gracePeriod, block, openSkippedProposals, missed, reported);
    }

    /** Opens every step that was jumped over. */
    method UpdateOpenSkippedProposals(stepSeen: int, heightSeen: int)
      modifies this`latestStep, this`openSkippedProposals
      ensures latestStep == if old(latestStep) < stepSeen then stepSeen else old(latestStep)
      ensures openSkippedProposals == old(openSkippedProposals) +
                (set s | old(latestStep) < s < stepSeen :: SkippedProposal(s, heightSeen))
    {
      if stepSeen > latestStep {
        for step := latestStep + 1 to stepSeen
          invariant latestStep == old(latestStep)
          invariant openSkippedProposals == old(openSkippedProposals) +
                      (set s | old(latestStep) < s < step :: SkippedProposal(s, heightSeen))
        {
          openSkippedProposals := openSkippedProposals + {SkippedProposal(step, heightSeen)};
        }
        latestStep := stepSeen;
      }
    }

    /** Closes the step that has been proposed after all. */
    method RemoveOpenSkippedProposalsWithStep(step: int)
      modifies this`openSkippedProposals
      ensures openSkippedProposals == set p | p in old(openSkippedProposals) && p.step != step
    {
      openSkippedProposals := set p | p in openSkippedProposals && p.step != step;
    }

    /** The open proposals whose grace period has ended, in the order of their steps. */
    method GetMissedProposals() returns (missed: seq<SkippedProposal>)
      ensures StepsAscend(missed)
      ensures forall p :: p in missed <==> p in openSkippedProposals && p.step < latestStep - gracePeriod
    {
      var gracePeriodEnd := latestStep - gracePeriod;
      missed := SortedByStep(set p | p in openSkippedProposals && p.step < gracePeriodEnd);
    }

    /** Asks the oracle for the one to blame for each missed proposal. */
    method Report(missed: seq<SkippedProposal>, oracle: PrimaryOracle) returns (r: Result<seq<SkipReport>>)
      requires oracle.Valid()
      ensures r.Success? ==> ProposalsOf(r.value) == missed && BlamesPrimaries(oracle, r.value)
      ensures r.Failure? ==>
                exists p :: p in missed &&
                            PrimaryAt(oracle.added, oracle.maxHeight, p.blockHeight, p.step) == Failure(r.error)
    {
      hide ValidatorsAt, PrimaryAt, InCharge;
      var reports: seq<SkipReport> := [];
      for i := 0 to |missed|
        invariant ProposalsOf(reports) == missed[..i]
        invariant BlamesPrimaries(oracle, reports)
      {
        var primary := oracle.GetPrimary(missed[i].blockHeight, missed[i].step);
        if primary.Failure? {
          assert missed[i] in missed;
          return Failure(primary.error);
        }
        reports := reports + [SkipReport(primary.value, missed[i])];
      }
      return Success(reports);
    }
  }

  /** After a block, the open and the reported proposals are what the declarative account says. */
  lemma BlockIsAccounted(
      blocks: seq<Block>, grace: nat, b: Block, pending: set<SkippedProposal>, missed: seq<SkippedProposal>,
      reported: seq<SkippedProposal>)
    requires blocks != [] && IsReportOf(blocks, grace, reported)
    requires forall p :: p in pending <==> Pending(blocks, grace, b, p)
    requires StepsIncrease(missed)
    requires forall p :: p in missed <==> p in pending && p.step < LatestStep(blocks + [b]) - grace
    ensures forall p :: p in pending && p !in missed <==> Open(blocks + [b], grace, p)
    ensures IsReportOf(blocks + [b], grace, reported + missed)
    ensures forall p :: p in missed ==> Missed(blocks + [b], grace, p) && p !in reported
  {
    hide Missed, Open, Pending, LatestStep;
    var after, all := blocks + [b], reported + missed;
    forall p
      ensures p in pending && p !in missed <==> Open(after, grace, p)
      ensures p in all <==> Missed(after, grace, p)
    {
      BlockSplitsPending(blocks, grace, b, p);
    }
    forall i, j | 0 <= i < j < |all|
      ensures all[i].step < all[j].step
    {
      if i < |reported| <= j {
        assert all[i] == reported[i] && all[j] == missed[j - |reported|];
        assert reported[i] in reported && missed[j - |reported|] in missed;
        MissesComeInOrder(blocks, grace, b, all[i], all[j]);
      }
    }
    forall p | p in missed
      ensures p !in reported
    {
      if p in reported {
        MissesComeInOrder(blocks, grace, b, p, p);
      }
    }
  }
}
