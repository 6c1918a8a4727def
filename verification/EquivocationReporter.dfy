/** Reports proposers of several blocks in one step (src/monitor/equivocation_reporter.py). */
module EquivocationReporter {
  import opened Basics
  import opened BlockDB
  import opened BlockSync

  /** All stored blocks by the block's proposer in the block's step. */
  function Group(call: Call): set<Hash> {
    HashesByProposerAndStep(call.table, call.block.proposer, call.block.step)
  }

  /** The reports that a run of calls leads to. */
  function ReportsOf(calls: seq<Call>): seq<set<Hash>> {
    if calls == [] then [] else
      var last := calls[|calls| - 1];
      ReportsOf(calls[..|calls| - 1]) + if |Group(last)| >= 2 then [Group(last)] else []
  }

  /** No other block of its proposer and step is stored. */
  predicate IsAlone(call: Call) {
    var table, block := call.table, call.block;
    forall h :: h in table && table[h].proposer == block.proposer && table[h].step == block.step ==> h == block.hash
  }

  lemma TwoOrAlone(call: Call)
    requires call.block.hash in Group(call)
    ensures |Group(call)| >= 2 <==> !IsAlone(call)
  {
    var all, own := Group(call), call.block.hash;
    if IsAlone(call) {
      assert all == {own};
    } else {
      var h :| h in call.table && call.table[h].proposer == call.block.proposer &&
               call.table[h].step == call.block.step && h != own;
      assert {own, h} <= all;
      SmallerSet({own, h}, all);
    }
  }

  lemma {:induction false} SmallerSet(some: set<Hash>, all: set<Hash>)
    requires some <= all
    ensures |some| <= |all|
    decreases some
  {
    if some != {} {
      var h :| h in some;
      SmallerSet(some - {h}, all - {h});
    }
  }

  class EquivocationReporter {
    ghost var seen: seq<Call>          // every call so far
    var reports: seq<set<Hash>>        // every report so far

    ghost predicate Valid()
      reads this
    {
      reports == ReportsOf(seen)
    }

    constructor ()
      ensures Valid() && seen == [] && reports == []
    {
      seen, reports := [], [];
    }

    /** Reports the group of the block if it has at least two members; the block itself must be stored. */
    method OnBlock(call: Call) returns (r: Result<()>)
      requires Valid()
      modifies this
      ensures r.Success? <==>
                && call.block.hash in call.table
                && call.table[call.block.hash].proposer == call.block.proposer
                && call.table[call.block.hash].step == call.block.step
      ensures r.Failure? ==> r.error == OwnBlockMissing
      ensures r.Success? ==> Valid() && seen == old(seen) + [call]
      // a report of exactly the stored blocks of that proposer and step, if there is another one besides the block
      ensures r.Success? && IsAlone(call) ==> reports == old(reports)
      ensures r.Success? && !IsAlone(call) ==>
                && |reports| == |old(reports)| + 1 && old(reports) <= reports
                && |reports[|reports| - 1]| >= 2
                && forall h :: h in reports[|reports| - 1] <==>
                                 h in call.table && call.table[h].proposer == call.block.proposer &&
                                 call.table[h].step == call.block.step
    {
      var hashes := HashesByProposerAndStep(call.table, call.block.proposer, call.block.step);
      if call.block.hash !in hashes {
        return Failure(OwnBlockMissing);
      }
      ReportsSnoc(seen, call);
      TwoOrAlone(call);
      if |hashes| >= 2 {
        reports := reports + [hashes];
      }
      seen := seen + [call];
      return Success(());
    }
  }

  lemma ReportsSnoc(calls: seq<Call>, call: Call)
    ensures ReportsOf(calls + [call]) == ReportsOf(calls) + if |Group(call)| >= 2 then [Group(call)] else []
  {
    assert (calls + [call])[..|calls|] == calls;
  }

  lemma {:induction false} ReportsComeFromGroups(calls: seq<Call>, s: set<Hash>)
    ensures s in ReportsOf(calls) <==> exists i :: 0 <= i < |calls| && Group(calls[i]) == s && |s| >= 2
  {
    if calls != [] {
      var n := |calls| - 1;
      ReportsComeFromGroups(calls[..n], s);
      if s in ReportsOf(calls[..n]) {
        var i :| 0 <= i < n && Group(calls[..n][i]) == s;
        assert Group(calls[i]) == s;
      }
      if i :| 0 <= i < |calls| && Group(calls[i]) == s && |s| >= 2 && i < n {
        assert calls[..n][i] == calls[i];
      }
    }
  }

  /** Driven by stored and logged blocks, the reporter always finds its own block. */
  lemma OwnBlockIsThere(calls: seq<Call>, table: map<Hash, Block>, i: nat)
    requires Stored(table, Delivered(calls)) && Logged(calls, table) && i < |calls|
    ensures calls[i].block.hash in Group(calls[i])
  {
    assert Delivered(calls)[i] in Delivered(calls);
  }

  /**
   * Every report has at least two members and lists exactly the blocks of one proposer in one step
   * that were stored when it was made; all of them are still stored.
   */
  lemma ReportsAreSound(calls: seq<Call>, table: map<Hash, Block>, s: set<Hash>) returns (i: nat)
    requires Logged(calls, table) && s in ReportsOf(calls)
    ensures i < |calls| && |s| >= 2
    ensures forall h :: h in s <==>
                          h in calls[i].table && calls[i].table[h].proposer == calls[i].block.proposer &&
                          calls[i].table[h].step == calls[i].block.step
    ensures forall h :: h in s ==>
                          h in table && table[h].proposer == calls[i].block.proposer &&
                          table[h].step == calls[i].block.step
  {
    hide ReportsOf;
    ReportsComeFromGroups(calls, s);
    i :| 0 <= i < |calls| && Group(calls[i]) == s;
  }

  /** Position `i` has the last call for a block of the given proposer and step. */
  ghost predicate IsLastFor(calls: seq<Call>, proposer: Address, step: nat, i: int) {
    && 0 <= i < |calls| && calls[i].block.proposer == proposer && calls[i].block.step == step
    && forall j :: i < j < |calls| ==> calls[j].block.proposer != proposer || calls[j].block.step != step
  }

  lemma {:induction false} LastCallFor(calls: seq<Call>, proposer: Address, step: nat, k: nat) returns (i: int)
    requires k < |calls| && calls[k].block.proposer == proposer && calls[k].block.step == step
    ensures IsLastFor(calls, proposer, step, i)
    decreases |calls| - k
  {
    if j :| k < j < |calls| && calls[j].block.proposer == proposer && calls[j].block.step == step {
      i := LastCallFor(calls, proposer, step, j);
    } else {
      i := k;
    }
  }

  /**
   * Whenever two different blocks of one proposer in one step are stored, a report lists exactly all
   * the stored ones: the one made when the last of them was delivered.
   */
  lemma EquivocationsAreReported(calls: seq<Call>, table: map<Hash, Block>, g: Hash, h: Hash) returns (s: set<Hash>)
    requires Stored(table, Delivered(calls)) && Logged(calls, table)
    requires g in table && h in table && g != h
    requires table[g].proposer == table[h].proposer && table[g].step == table[h].step
    ensures s in ReportsOf(calls) && g in s && h in s
    ensures forall x :: x in s <==>
                          x in table && table[x].proposer == table[g].proposer && table[x].step == table[g].step
    ensures exists i :: IsLastFor(calls, table[g].proposer, table[g].step, i) && Group(calls[i]) == s
  {
    hide ReportsOf, Stored;
    var proposer, step := table[g].proposer, table[g].step;
    s := HashesByProposerAndStep(table, proposer, step);
    assert {g, h} <= s;
    SmallerSet({g, h}, s);
    var k := CallOf(calls, table, h);
    var i := LastCallFor(calls, proposer, step, k);
    forall x | x in s
      ensures x in Group(calls[i])
    {
      var j := CallOf(calls, table, x);
      assert j <= i;
    }
    assert Group(calls[i]) == s;
    ReportsComeFromGroups(calls, s);
  }

  lemma CallOf(calls: seq<Call>, table: map<Hash, Block>, h: Hash) returns (k: nat)
    requires Stored(table, Delivered(calls)) && h in table
    ensures k < |calls| && calls[k].block == table[h] && calls[k].block.hash == h
  {
    assert table[h] in Delivered(calls);
    k :| 0 <= k < |calls| && Delivered(calls)[k] == table[h];
  }
}
