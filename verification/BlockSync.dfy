/** What it means for the stored blocks, the delivered blocks and the branch in progress to be in order. */
module BlockSync {
  import opened Basics
  import opened Node
  import opened BlockDB

  /** One call to the callbacks: the block, and the table of stored blocks at that moment. */
  datatype Call = Call(block: Block, table: map<Hash, Block>)

  function Delivered(calls: seq<Call>): (blocks: seq<Block>)
    ensures |blocks| == |calls|
    ensures forall i :: 0 <= i < |calls| ==> blocks[i] == calls[i].block
  {
    seq(|calls|, i requires 0 <= i < |calls| => calls[i].block)
  }

  function CallsFor(blocks: seq<Block>, table: map<Hash, Block>): (calls: seq<Call>)
    ensures |calls| == |blocks|
    ensures forall i :: 0 <= i < |blocks| ==> calls[i] == Call(blocks[i], table)
  {
    seq(|blocks|, i requires 0 <= i < |blocks| => Call(blocks[i], table))
  }

  ghost predicate FromTree(tree: map<Hash, Block>, blocks: seq<Block>) {
    forall b :: b in blocks ==> b.hash in tree && tree[b.hash] == b
  }

  /** The table holds exactly the delivered blocks, each of which was delivered once. */
  ghost predicate Stored(table: map<Hash, Block>, delivered: seq<Block>) {
    && HashesDiffer(delivered)
    && (forall b :: b in delivered ==> b.hash in table && table[b.hash] == b)
    && (forall h :: h in table ==> table[h] in delivered && table[h].hash == h)
    && |table| == |delivered|
  }

  /** The parent of the `i`th block was delivered before it. */
  ghost predicate ParentBefore(delivered: seq<Block>, i: nat)
    requires i < |delivered|
  {
    exists j :: 0 <= j < i && delivered[j].hash == delivered[i].parentHash
  }

  /** A tree that grows from a single block numbered `initial`. */
  ghost predicate Rooted(delivered: seq<Block>, initial: int) {
    && (delivered != [] ==> delivered[0].number == initial)
    && (forall i :: 0 < i < |delivered| ==> initial < delivered[i].number && ParentBefore(delivered, i))
  }

  /** At each call the table had all blocks delivered so far and none that is not stored now. */
  ghost predicate Logged(calls: seq<Call>, table: map<Hash, Block>) {
    && (forall i, j :: 0 <= j <= i < |calls| ==> calls[j].block.hash in calls[i].table)
    && (forall i, h :: 0 <= i < |calls| && h in calls[i].table ==> h in table && table[h] == calls[i].table[h])
  }

  /** A branch as it is fetched: the head first, then parent after parent, none of them stored. */
  ghost predicate Descends(branch: seq<Block>) {
    forall i :: 0 <= i < |branch| - 1 ==> branch[i + 1].hash == branch[i].parentHash
  }

  ghost predicate Linked(tree: map<Hash, Block>, table: map<Hash, Block>, branch: seq<Block>, initial: int) {
    && FromTree(tree, branch) && NoneStored(table, branch) && Descends(branch)
    && (forall b :: b in branch ==> initial <= b.number)
  }

  /** A branch in progress still lacks a stored parent. */
  ghost predicate InProgress(tree: map<Hash, Block>, table: map<Hash, Block>, branch: seq<Block>, initial: int) {
    && Linked(tree, table, branch, initial)
    && (branch != [] ==> table != map[] && branch[|branch| - 1].parentHash !in table)
  }

  function Reversed(blocks: seq<Block>): (r: seq<Block>)
    ensures |r| == |blocks|
    ensures forall i :: 0 <= i < |blocks| ==> r[i] == blocks[|blocks| - 1 - i]
  {
    seq(|blocks|, i requires 0 <= i < |blocks| => blocks[|blocks| - 1 - i])
  }

  // ---------------------------------------------------------------------------
  // Storing a branch
  // ---------------------------------------------------------------------------

  lemma StoredAndNewDiffer(table: map<Hash, Block>, delivered: seq<Block>, blocks: seq<Block>)
    requires HashesDiffer(delivered) && HashesDiffer(blocks) && NoneStored(table, blocks)
    requires forall b :: b in delivered ==> b.hash in table
    ensures HashesDiffer(delivered + blocks)
  {
    var all := delivered + blocks;
    forall i, j | 0 <= i < j < |all|
      ensures all[i].hash != all[j].hash
    {
      if i < |delivered| <= j {
        assert delivered[i] in delivered;
        assert blocks[j - |delivered|].hash !in table;
      }
    }
  }

  lemma StoreBranch(table: map<Hash, Block>, delivered: seq<Block>, blocks: seq<Block>)
    requires Stored(table, delivered) && HashesDiffer(blocks) && NoneStored(table, blocks)
    ensures Stored(Filed(table, blocks), delivered + blocks)
  {
    FiledHas(table, blocks);
    StoredAndNewDiffer(table, delivered, blocks);
    hide Filed, HashesDiffer, NoneStored;
  }

  lemma RootBranch(tree: map<Hash, Block>, delivered: seq<Block>, blocks: seq<Block>, initial: int)
    requires IsTree(tree) && FromTree(tree, delivered) && FromTree(tree, blocks)
    requires Rooted(delivered, initial) && IsBranch(blocks)
    requires delivered == [] ==> |blocks| == 1 && blocks[0].number == initial
    requires delivered != [] && blocks != [] ==> exists b :: b in delivered && b.hash == blocks[0].parentHash
    ensures Rooted(delivered + blocks, initial)
  {
    var all, d := delivered + blocks, |delivered|;
    assert forall i :: 0 <= i < d ==> all[i] == delivered[i];
    forall i | 0 < i < d
      ensures initial < all[i].number && ParentBefore(all, i)
    {
      var j :| 0 <= j < i && delivered[j].hash == delivered[i].parentHash;
      assert all[j].hash == all[i].parentHash;
    }
    if d > 0 {
      RootRest(tree, delivered, blocks, initial, |blocks|);
    }
  }

  lemma FromTreeBoth(tree: map<Hash, Block>, some: seq<Block>, more: seq<Block>)
    requires FromTree(tree, some) && FromTree(tree, more)
    ensures FromTree(tree, some + more)
  {
  }

  lemma ParentIsBelow(tree: map<Hash, Block>, blocks: seq<Block>, initial: int, j: nat, i: nat)
    requires IsTree(tree) && FromTree(tree, blocks) && j < i < |blocks|
    requires blocks[j].hash == blocks[i].parentHash && initial <= blocks[j].number
    ensures initial < blocks[i].number && ParentBefore(blocks, i)
  {
    assert blocks[i] in blocks && blocks[j] in blocks;
  }

  lemma RootedIsAbove(delivered: seq<Block>, initial: int, j: nat)
    requires Rooted(delivered, initial) && j < |delivered|
    ensures initial <= delivered[j].number
  {
  }

  lemma {:induction false} RootRest(tree: map<Hash, Block>, delivered: seq<Block>, blocks: seq<Block>, initial: int,
      n: nat)
    requires IsTree(tree) && FromTree(tree, delivered) && FromTree(tree, blocks)
    requires Rooted(delivered, initial) && IsBranch(blocks) && delivered != [] && n <= |blocks|
    requires blocks != [] ==> exists b :: b in delivered && b.hash == blocks[0].parentHash
    ensures forall i :: |delivered| <= i < |delivered| + n ==>
                          initial < (delivered + blocks)[i].number && ParentBefore(delivered + blocks, i)
  {
    hide IsTree, FromTree, Rooted, ParentBefore;
    if n > 0 {
      RootRest(tree, delivered, blocks, initial, n - 1);
      FromTreeBoth(tree, delivered, blocks);
      var all, i := delivered + blocks, |delivered| + n - 1;
      var j: nat;
      if n == 1 {
        var p :| p in delivered && p.hash == blocks[0].parentHash;
        j :| 0 <= j < |delivered| && delivered[j] == p;
        RootedIsAbove(delivered, initial, j);
      } else {
        j := i - 1;
        assert all[j] == blocks[n - 2] && blocks[(n - 2) + 1].parentHash == blocks[n - 2].hash;
      }
      ParentIsBelow(tree, all, initial, j, i);
    }
  }

  lemma LogCalls(calls: seq<Call>, table: map<Hash, Block>, blocks: seq<Block>)
    requires Stored(table, Delivered(calls)) && Logged(calls, table)
    requires HashesDiffer(blocks) && NoneStored(table, blocks)
    ensures Logged(calls + CallsFor(blocks, Filed(table, blocks)), Filed(table, blocks))
    ensures Delivered(calls + CallsFor(blocks, Filed(table, blocks))) == Delivered(calls) + blocks
  {
    FiledHas(table, blocks);
    hide Filed, HashesDiffer, NoneStored, Logged, Delivered, CallsFor;
    var after := Filed(table, blocks);
    CalledAreStored(calls, table);
    DeliveredWithMore(calls, blocks, after);
    forall i | 0 <= i < |blocks|
      ensures blocks[i].hash in after
    {
      assert blocks[i] in blocks;
    }
    AppendCalls(calls, table, CallsFor(blocks, after), after);
  }

  lemma CalledAreStored(calls: seq<Call>, table: map<Hash, Block>)
    requires Stored(table, Delivered(calls))
    ensures forall c :: c in calls ==> c.block.hash in table
  {
    hide HashesDiffer;
    forall c | c in calls
      ensures c.block.hash in table
    {
      var i :| 0 <= i < |calls| && calls[i] == c;
      assert Delivered(calls)[i] in Delivered(calls);
    }
  }

  lemma DeliveredWithMore(calls: seq<Call>, blocks: seq<Block>, table: map<Hash, Block>)
    ensures Delivered(calls + CallsFor(blocks, table)) == Delivered(calls) + blocks
  {
  }

  lemma AppendCalls(calls: seq<Call>, table: map<Hash, Block>, more: seq<Call>, after: map<Hash, Block>)
    requires Logged(calls, table)
    requires forall h :: h in table ==> h in after && after[h] == table[h]
    requires forall c :: c in calls ==> c.block.hash in after
    requires forall i :: 0 <= i < |more| ==> more[i].table == after && more[i].block.hash in after
    ensures Logged(calls + more, after)
  {
    var all := calls + more;
    forall i, j | 0 <= j <= i < |all|
      ensures all[j].block.hash in all[i].table
    {
      if j < |calls| {
        assert calls[j] in calls;
      }
    }
  }

  // ---------------------------------------------------------------------------
  // Branches
  // ---------------------------------------------------------------------------

  /** Numbers fall by one from block to block, so no block occurs twice. */
  lemma {:induction false} BranchNumbersFall(tree: map<Hash, Block>, branch: seq<Block>, i: nat, j: nat)
    requires IsTree(tree) && FromTree(tree, branch) && Descends(branch) && i <= j < |branch|
    ensures branch[j].number == branch[i].number - (j - i)
    decreases j
  {
    if i < j {
      BranchNumbersFall(tree, branch, i, j - 1);
      assert branch[j - 1] in branch && branch[j] in branch;
      assert branch[(j - 1) + 1].hash == branch[j - 1].parentHash;
    }
  }

  lemma BranchBlocksDiffer(tree: map<Hash, Block>, branch: seq<Block>)
    requires IsTree(tree) && FromTree(tree, branch) && Descends(branch)
    ensures HashesDiffer(branch)
  {
    forall i, j | 0 <= i < j < |branch|
      ensures branch[i].hash != branch[j].hash
    {
      BranchNumbersFall(tree, branch, i, j);
      assert branch[i] in branch && branch[j] in branch;
    }
  }

  lemma ReversedIsBranch(tree: map<Hash, Block>, table: map<Hash, Block>, branch: seq<Block>)
    requires IsTree(tree) && FromTree(tree, branch) && Descends(branch) && NoneStored(table, branch)
    ensures IsBranch(Reversed(branch)) && HashesDiffer(Reversed(branch)) && NoneStored(table, Reversed(branch))
    ensures FromTree(tree, Reversed(branch))
  {
    BranchBlocksDiffer(tree, branch);
    var r := Reversed(branch);
    forall i | 0 <= i < |r| - 1
      ensures r[i + 1].parentHash == r[i].hash
    {
      assert r[i] == branch[(|branch| - 2 - i) + 1];
    }
    forall b | b in r
      ensures b.hash in tree && tree[b.hash] == b
    {
      var i :| 0 <= i < |r| && r[i] == b;
      assert branch[|branch| - 1 - i] in branch;
    }
  }

  /** A stored parent can be found among the delivered blocks. */
  lemma ParentIsDelivered(table: map<Hash, Block>, delivered: seq<Block>, hash: Hash)
    requires Stored(table, delivered) && hash in table
    ensures exists b :: b in delivered && b.hash == hash
  {
    assert table[hash] in delivered;
  }

  /** Stored, delivered and logged blocks agree, and the head is the block delivered last. */
  ghost predicate InSync(tree: map<Hash, Block>, table: map<Hash, Block>, calls: seq<Call>, head: Option<Block>,
      initial: int) {
    && 0 <= initial
    && FromTree(tree, Delivered(calls)) && Stored(table, Delivered(calls))
    && Rooted(Delivered(calls), initial) && Logged(calls, table)
    && head == if calls == [] then None else Some(calls[|calls| - 1].block)
  }

  /** The branch may be stored: it is connected and new, and attached unless the table is empty. */
  ghost predicate Insertable(table: map<Hash, Block>, blocks: seq<Block>, initial: int) {
    && blocks != [] && IsBranch(blocks) && HashesDiffer(blocks) && NoneStored(table, blocks)
    && (table == map[] ==> |blocks| == 1 && blocks[0].number == initial)
    && (table != map[] ==> blocks[0].parentHash in table)
  }

  lemma InsertKeepsSync(
      tree: map<Hash, Block>, table: map<Hash, Block>, calls: seq<Call>, head: Option<Block>, initial: int,
      blocks: seq<Block>)
    requires IsTree(tree) && FromTree(tree, blocks)
    requires InSync(tree, table, calls, head, initial) && Insertable(table, blocks, initial)
    ensures var after := Filed(table, blocks);
            InSync(tree, after, calls + CallsFor(blocks, after), Some(blocks[|blocks| - 1]), initial)
    ensures |Filed(table, blocks)| == |table| + |blocks|
  {
    hide HashesDiffer, NoneStored, IsBranch, Filed, Logged, Rooted, Stored, IsTree;
    var delivered := Delivered(calls);
    FiledHas(table, blocks);
    StoreBranch(table, delivered, blocks);
    LogCalls(calls, table, blocks);
    StoredIsEmpty(table, delivered);
    if table != map[] {
      ParentIsDelivered(table, delivered, blocks[0].parentHash);
    }
    RootBranch(tree, delivered, blocks, initial);
  }

  lemma StoredIsEmpty(table: map<Hash, Block>, delivered: seq<Block>)
    requires Stored(table, delivered)
    ensures table == map[] <==> delivered == []
  {
    if delivered != [] {
      assert delivered[0] in delivered;
    } else {
      assert forall h :: h !in table;
    }
  }

  // ---------------------------------------------------------------------------
  // Consequences
  // ---------------------------------------------------------------------------

  /** All ancestors of a stored block down to the initial one are stored and were delivered. */
  lemma {:induction false} AncestorsAreStored(
      tree: map<Hash, Block>, table: map<Hash, Block>, delivered: seq<Block>, initial: int, h: Hash, n: int)
    requires IsTree(tree) && FromTree(tree, delivered) && Stored(table, delivered) && Rooted(delivered, initial)
    requires h in table && h in tree && 0 <= initial <= n <= tree[h].number
    ensures var a := AncestorAt(tree, h, n); a.Some? && a.value in delivered && a.value.hash in table
    decreases tree[h].number
  {
    var b := table[h];
    assert b in delivered;
    if n < b.number {
      var i :| 0 <= i < |delivered| && delivered[i] == b;
      assert i > 0 && ParentBefore(delivered, i);
      var j :| 0 <= j < i && delivered[j].hash == b.parentHash;
      assert delivered[j] in delivered;
      AncestorsAreStored(tree, table, delivered, initial, b.parentHash, n);
    }
  }

  /** Blocks of one chain. */
  ghost predicate OnChain(tree: map<Hash, Block>, chain: Hash, blocks: seq<Block>)
    requires IsTree(tree) && chain in tree
  {
    forall b :: b in blocks ==> AncestorAt(tree, chain, b.number) == Some(b)
  }

  lemma SameNumberSameBlock(tree: map<Hash, Block>, chain: Hash, blocks: seq<Block>, i: nat, j: nat)
    requires IsTree(tree) && chain in tree && OnChain(tree, chain, blocks) && HashesDiffer(blocks)
    requires i < |blocks| && j < |blocks| && blocks[i].number == blocks[j].number
    ensures i == j
  {
    assert blocks[i] in blocks && blocks[j] in blocks;
  }

  /** On a single chain the delivery order is the order of numbers, without gaps. */
  lemma {:induction false} ChainDeliveredInOrder(tree: map<Hash, Block>, chain: Hash, delivered: seq<Block>,
      initial: int, i: nat)
    requires IsTree(tree) && chain in tree && FromTree(tree, delivered) && OnChain(tree, chain, delivered)
    requires HashesDiffer(delivered) && Rooted(delivered, initial) && i < |delivered|
    ensures delivered[i].number == initial + i
    decreases i
  {
    if i > 0 {
      assert ParentBefore(delivered, i);
      var j :| 0 <= j < i && delivered[j].hash == delivered[i].parentHash;
      ChainDeliveredInOrder(tree, chain, delivered, initial, j);
      assert delivered[i] in delivered && delivered[j] in delivered;
      assert delivered[i].number == delivered[j].number + 1;
      hide OnChain, HashesDiffer, Rooted, FromTree;
      if j < i - 1 {
        ChainDeliveredInOrder(tree, chain, delivered, initial, j + 1);
        SameNumberSameBlock(tree, chain, delivered, j + 1, i);
        assert false;
      }
    }
  }
}
