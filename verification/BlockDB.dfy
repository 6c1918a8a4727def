/** The table of stored blocks (src/monitor/db.py). */
module BlockDB {
  import opened Basics

  /** Each block is the parent of the next one. */
  predicate IsBranch(blocks: seq<Block>) {
    forall i :: 0 <= i < |blocks| - 1 ==> blocks[i + 1].parentHash == blocks[i].hash
  }

  predicate HashesDiffer(blocks: seq<Block>) {
    forall i, j :: 0 <= i < j < |blocks| ==> blocks[i].hash != blocks[j].hash
  }

  predicate NoneStored(table: map<Hash, Block>, blocks: seq<Block>) {
    forall i :: 0 <= i < |blocks| ==> blocks[i].hash !in table
  }

  /** The table with the blocks filed under their hashes. */
  function Filed(table: map<Hash, Block>, blocks: seq<Block>): map<Hash, Block> {
    if blocks == [] then table
    else Filed(table, blocks[..|blocks| - 1])[blocks[|blocks| - 1].hash := blocks[|blocks| - 1]]
  }

  /** The table `filed` has the stored blocks, the new ones, and nothing else. */
  ghost predicate HasBoth(filed: map<Hash, Block>, table: map<Hash, Block>, blocks: seq<Block>) {
    && (forall b :: b in blocks ==> b.hash in filed && filed[b.hash] == b)
    && (forall h :: h in table ==> h in filed && filed[h] == table[h])
    && (forall h :: h in filed && h !in table ==> filed[h] in blocks && filed[h].hash == h)
    && |filed| == |table| + |blocks|
  }

  lemma HasOneMore(filed: map<Hash, Block>, table: map<Hash, Block>, blocks: seq<Block>, b: Block)
    requires HasBoth(filed, table, blocks) && b.hash !in table
    requires forall x :: x in blocks ==> x.hash != b.hash
    ensures HasBoth(filed[b.hash := b], table, blocks + [b])
  {
    assert b.hash !in filed;
    assert filed[b.hash := b].Keys == filed.Keys + {b.hash};
  }

  lemma {:induction false} FiledHasBoth(table: map<Hash, Block>, blocks: seq<Block>)
    requires HashesDiffer(blocks) && NoneStored(table, blocks)
    ensures HasBoth(Filed(table, blocks), table, blocks)
  {
    if blocks != [] {
      var n := |blocks| - 1;
      DifferentLast(blocks);
      NewLast(table, blocks);
      FiledOneMore(table, blocks);
      hide HasBoth, HashesDiffer, NoneStored, Filed;
      FiledHasBoth(table, blocks[..n]);
      HasOneMore(Filed(table, blocks[..n]), table, blocks[..n], blocks[n]);
      assert blocks == blocks[..n] + [blocks[n]];
    }
  }

  /** Filing finds the stored blocks, the new ones, and nothing else. */
  lemma FiledHas(table: map<Hash, Block>, blocks: seq<Block>)
    requires HashesDiffer(blocks) && NoneStored(table, blocks)
    ensures forall b :: b in blocks ==> b.hash in Filed(table, blocks) && Filed(table, blocks)[b.hash] == b
    ensures forall h :: h in table ==> h in Filed(table, blocks) && Filed(table, blocks)[h] == table[h]
    ensures forall h :: h in Filed(table, blocks) && h !in table ==>
            Filed(table, blocks)[h] in blocks && Filed(table, blocks)[h].hash == h
    ensures |Filed(table, blocks)| == |table| + |blocks|
  {
    hide Filed;
    FiledHasBoth(table, blocks);
  }

  lemma DifferentLast(blocks: seq<Block>)
    requires blocks != [] && HashesDiffer(blocks)
    ensures HashesDiffer(blocks[..|blocks| - 1])
    ensures forall b :: b in blocks[..|blocks| - 1] ==> b.hash != blocks[|blocks| - 1].hash
  {
  }

  lemma NewLast(table: map<Hash, Block>, blocks: seq<Block>)
    requires blocks != [] && NoneStored(table, blocks)
    ensures NoneStored(table, blocks[..|blocks| - 1]) && blocks[|blocks| - 1].hash !in table
  {
  }

  lemma FiledOneMore(table: map<Hash, Block>, blocks: seq<Block>)
    requires blocks != []
    ensures var n := |blocks| - 1; Filed(table, blocks) == Filed(table, blocks[..n])[blocks[n].hash := blocks[n]]
  {
  }

  /** A further block is new exactly when its hash has not been filed yet. */
  lemma NextIsNew(table: map<Hash, Block>, branch: seq<Block>, i: nat)
    requires i < |branch| && HashesDiffer(branch[..i]) && NoneStored(table, branch[..i])
    ensures branch[i].hash !in Filed(table, branch[..i]) ==>
              && HashesDiffer(branch[..i + 1]) && NoneStored(table, branch[..i + 1])
              && Filed(table, branch[..i + 1]) == Filed(table, branch[..i])[branch[i].hash := branch[i]]
    ensures branch[i].hash in Filed(table, branch[..i]) ==> !HashesDiffer(branch) || !NoneStored(table, branch)
  {
    var init := branch[..i];
    FiledHas(table, init);
    assert branch[..i + 1] == init + [branch[i]];
    assert branch[..i + 1][..i] == init;
    if branch[i].hash in Filed(table, init) {
      if branch[i].hash !in table {
        var b := Filed(table, init)[branch[i].hash];
        var j :| 0 <= j < i && init[j] == b;
        assert branch[j].hash == branch[i].hash;
      }
    } else {
      forall j | 0 <= j < i
        ensures branch[j].hash != branch[i].hash
      {
        assert init[j] in init;
      }
    }
  }

  lemma NothingFiled(table: map<Hash, Block>, branch: seq<Block>)
    ensures HashesDiffer(branch[..0]) && NoneStored(table, branch[..0]) && Filed(table, branch[..0]) == table
  {
  }

  method EnsureBranch(blocks: seq<Block>) returns (r: Result<()>)
    ensures r.Success? <==> forall i :: 0 <= i < |blocks| - 1 ==> blocks[i + 1].parentHash == blocks[i].hash
    ensures r.Success? <==> IsBranch(blocks)
    ensures r.Failure? ==> r.error == BranchNotConnected
  {
    for i := 0 to |blocks|
      invariant forall j :: 0 <= j < i && j < |blocks| - 1 ==> blocks[j + 1].parentHash == blocks[j].hash
    {
      if i + 1 < |blocks| && blocks[i + 1].parentHash != blocks[i].hash {
        return Failure(BranchNotConnected);
      }
    }
    return Success(());
  }

  class BlockDB {
    var blocks: map<Hash, Block>

    constructor ()
      ensures blocks == map[]
    {
      blocks := map[];
    }

    /** Stores a branch, all of it or, on an error, nothing. */
    method InsertBranch(branch: seq<Block>) returns (r: Result<()>)
      modifies this
      ensures r == if !IsBranch(branch) then Failure(BranchNotConnected)
                   else if HashesDiffer(branch) && NoneStored(old(blocks), branch) then Success(())
                   else Failure(BlockAlreadyKnown)
      ensures blocks == if r.Success? then Filed(old(blocks), branch) else old(blocks)
    {
      var _ :- EnsureBranch(branch);
      hide IsBranch, HashesDiffer, NoneStored, Filed;
      var stored := blocks;
      NothingFiled(blocks, branch);
      for i := 0 to |branch|
        invariant blocks == old(blocks)
        invariant HashesDiffer(branch[..i]) && NoneStored(blocks, branch[..i])
        invariant stored == Filed(blocks, branch[..i])
      {
        NextIsNew(blocks, branch, i);
        if branch[i].hash in stored {
          return Failure(BlockAlreadyKnown);
        }
        stored := stored[branch[i].hash := branch[i]];
      }
      assert branch[..|branch|] == branch;
      blocks := stored;
      return Success(());
    }

    predicate IsEmpty()
      reads this
    {
      blocks == map[]
    }

    predicate Contains(hash: Hash)
      reads this
    {
      hash in blocks
    }
  }

  /** The hashes of the stored blocks of one proposer and step. */
  function HashesByProposerAndStep(table: map<Hash, Block>, proposer: Address, step: nat): set<Hash> {
    set h | h in table && table[h].proposer == proposer && table[h].step == step
  }
}
