/** Fetches new blocks from the node, forwards or backwards, and passes them on (src/monitor/block_fetcher.py). */
module BlockFetcher {
  import opened Basics
  import opened Node
  import opened BlockDB
  import opened BlockSync

  /** From call `t` on the canonical chain is the one that ends in block `chain`. */
  ghost predicate FixedTo(node: Node, t: nat, chain: Hash)
    requires node.WellFormed()
  {
    && chain in node.tree
    && (forall s :: t <= s ==> node.tip(s) == chain)
    && (forall s :: t <= s ==> node.selected(s).Some? &&
                               var b := node.tree[node.selected(s).value];
                               AncestorAt(node.tree, chain, b.number) == Some(b))
  }

  /** The blocks of a chain numbered from `from` on. */
  ghost predicate ChainBlocks(tree: map<Hash, Block>, chain: Hash, from: int, blocks: seq<Block>) {
    && IsTree(tree) && chain in tree
    && forall i :: 0 <= i < |blocks| ==> AncestorAt(tree, chain, from + i) == Some(blocks[i])
  }

  /** A cap is at least as strict as a bound. */
  predicate Within(cap: Option<int>, bound: Option<int>) {
    bound.Some? ==> cap.Some? && cap.value <= bound.value
  }

  /**
   * Starting with call `t`, the blocks numbered from `from` on were canonical when they were asked
   * for one after the other; fewer than `n` only if the next one did not exist.
   */
  ghost predicate FollowsCanonical(node: Node, t: nat, from: int, n: int, blocks: seq<Block>)
    requires node.WellFormed()
  {
    && (forall i :: 0 <= i < |blocks| ==> node.CanonicalAt(t + i, from + i) == Some(blocks[i]))
    && |blocks| <= Max(0, n)
    && (|blocks| < n ==> node.CanonicalAt(t + |blocks|, from + |blocks|).None?)
  }

  /** A block that is so deep below the tip is canonical from then on. */
  ghost predicate NotReplaced(node: Node, depth: nat)
    requires node.WellFormed()
  {
    forall s, u, n :: 0 <= s <= u && 0 <= n <= node.TipAt(s).number - depth ==>
        node.CanonicalAt(u, n) == node.CanonicalAt(s, n)
  }

  /** A first block that is neither a genesis block nor numbered like the initial one needs a stored parent. */
  predicate LacksBase(table: map<Hash, Block>, blocks: seq<Block>, initial: int) {
    && blocks != []
    && blocks[0].number != 0 && blocks[0].number != initial
    && blocks[0].parentHash !in table
  }

  /** The initial block for an empty table, blocks above it for any other. */
  ghost predicate StartsProperly(table: map<Hash, Block>, blocks: seq<Block>, initial: int) {
    blocks != [] ==>
      if table == map[] then |blocks| == 1 && blocks[0].number == initial else initial < blocks[0].number
  }

  /** No delivered block is numbered higher than the head, or than the first block of the branch in progress. */
  ghost predicate IsTop(calls: seq<Call>, head: Option<Block>, branch: seq<Block>) {
    forall i :: 0 <= i < |calls| ==>
                  && head.Some? && calls[i].block.number <= head.value.number
                  && (branch != [] ==> calls[i].block.number <= branch[0].number)
  }

  ghost predicate AtMost(blocks: seq<Block>, cap: Option<int>) {
    cap.Some? ==> forall b :: b in blocks ==> b.number <= cap.value
  }

  class BlockFetcher {
    const node: Node
    const db: BlockDB
    const maxReorgDepth: nat
    var head: Option<Block>
    var currentBranch: seq<Block>
    var initialBlocknr: int
    var calls: seq<Call>  // the calls of each registered callback, in order

    /** Stored and delivered blocks agree. */
    ghost predicate Synced()
      reads this`head, this`initialBlocknr, this`calls, db
    {
      node.WellFormed() && InSync(node.tree, db.blocks, calls, head, initialBlocknr)
    }

    ghost predicate Valid()
      reads this`head, this`initialBlocknr, this`calls, this`currentBranch, db
    {
      Synced() && InProgress(node.tree, db.blocks, currentBranch, initialBlocknr)
    }

    /** Everything fetched so far lies on one chain. */
    ghost predicate OnlyOn(chain: Hash)
      reads this`calls, this`currentBranch
    {
      && node.WellFormed() && chain in node.tree
      && OnChain(node.tree, chain, Delivered(calls)) && OnChain(node.tree, chain, currentBranch)
    }

    /** Nothing above the head, or above the branch in progress, has been delivered. */
    ghost predicate HeadIsTop()
      reads this`calls, this`head, this`currentBranch
    {
      IsTop(calls, head, currentBranch)
    }

    constructor (node: Node, db: BlockDB, maxReorgDepth: nat)
      requires node.WellFormed() && db.blocks == map[]
      ensures this.node == node && this.db == db && this.maxReorgDepth == maxReorgDepth
      ensures Valid() && HeadIsTop() && calls == [] && currentBranch == []
    {
      this.node, this.db, this.maxReorgDepth := node, db, maxReorgDepth;
      head, currentBranch, initialBlocknr, calls := None, [], 0, [];
    }

    method RunCallbacks(blocks: seq<Block>)
      modifies this`calls
      ensures calls == old(calls) + CallsFor(blocks, db.blocks)
    {
      for i := 0 to |blocks|
        invariant calls == old(calls) + CallsFor(blocks, db.blocks)[..i]
      {
        calls := calls + [Call(blocks[i], db.blocks)];
      }
    }

    /** Stores a branch and passes its blocks on, unless its base is unknown or it does not fit. */
    method InsertBranch(blocks: seq<Block>) returns (r: Result<()>)
      requires Synced() && FromTree(node.tree, blocks)
      modifies this`head, this`currentBranch, this`calls, db
      // each error has its cause
      ensures r == Failure(UnknownForkBase) <==>
                && blocks != [] && blocks[0].number != 0 && blocks[0].number != initialBlocknr
                && blocks[0].parentHash !in old(db.blocks)
      ensures r == Failure(UnknownForkBase) <==> LacksBase(old(db.blocks), blocks, initialBlocknr)
      ensures r == Failure(BranchNotConnected) <==>
              !LacksBase(old(db.blocks), blocks, initialBlocknr) && !IsBranch(blocks)
      ensures r == Failure(BlockAlreadyKnown) <==>
                && !LacksBase(old(db.blocks), blocks, initialBlocknr) && IsBranch(blocks)
                && !(HashesDiffer(blocks) && NoneStored(old(db.blocks), blocks))
      ensures r.Failure? ==> r.error in {UnknownForkBase, BranchNotConnected, BlockAlreadyKnown}
      // nothing happens without blocks or on an error
      ensures blocks == [] ==> r.Success?
      ensures r.Failure? || blocks == [] ==> calls == old(calls) && currentBranch == old(currentBranch)
      ensures r.Failure? || blocks == [] ==> head == old(head) && db.blocks == old(db.blocks)
      ensures r.Success? && blocks != [] ==> currentBranch == [] && calls == old(calls) + CallsFor(blocks, db.blocks)
      ensures r.Success? && blocks != [] ==>
                head == Some(blocks[|blocks| - 1]) && db.blocks == Filed(old(db.blocks), blocks)
      // blocks above the initial one keep the table in sync
      ensures blocks != [] && StartsProperly(old(db.blocks), blocks, initialBlocknr) ==>
                (r.Success? <==> Insertable(old(db.blocks), blocks, initialBlocknr))
      ensures r.Success? && StartsProperly(old(db.blocks), blocks, initialBlocknr) ==>
                Synced() && |db.blocks| == |old(db.blocks)| + |blocks|
    {
      hide InSync, Filed, HashesDiffer, NoneStored, CallsFor, FromTree;
      InitialIsNatural(node.tree, db.blocks, calls, head, initialBlocknr);
      SingleBranch(blocks, db.blocks);
      NoBlocks(db.blocks);
      if |blocks| == 0 {
        return Success(());
      }
      if blocks[0].number != 0 && blocks[0].number != initialBlocknr && !db.Contains(blocks[0].parentHash) {
        return Failure(UnknownForkBase);
      }
      if Insertable(db.blocks, blocks, initialBlocknr) {
        InsertKeepsSync(node.tree, db.blocks, calls, head, initialBlocknr, blocks);
      }
      var _ :- db.InsertBranch(blocks);
      head := Some(blocks[|blocks| - 1]);
      currentBranch := [];
      RunCallbacks(blocks);
      return Success(());
    }

    // -------------------------------------------------------------------------
    // Forwards
    // -------------------------------------------------------------------------

    /** The canonical blocks numbered from `from` up to, not including, `to`; stops where there is none. */
    method CanonicalBlocks(from: int, to: int, ghost chain: Hash) returns (blocks: seq<Block>)
      requires node.WellFormed() && 0 <= from
      modifies node
      ensures old(node.clock) <= node.clock
      ensures |blocks| <= Max(0, to - from)
      ensures FromTree(node.tree, blocks)
      ensures forall i :: 0 <= i < |blocks| ==> blocks[i].number == from + i
      ensures FollowsCanonical(node, old(node.clock), from, to - from, blocks)
      ensures FixedTo(node, old(node.clock), chain) ==> ChainBlocks(node.tree, chain, from, blocks)
    {
      hide FixedTo, AncestorAt, IsTree;
      FixedTip(node, node.clock, node.clock, chain);
      blocks := [];
      var number := from;
      while number < to
        invariant node.clock == old(node.clock) + |blocks|
        invariant number == from + |blocks| && (to <= from ==> blocks == [])
        invariant from < to ==> number <= to
        invariant FromTree(node.tree, blocks)
        invariant forall i :: 0 <= i < |blocks| ==> node.CanonicalAt(old(node.clock) + i, from + i) == Some(blocks[i])
        invariant FixedTo(node, old(node.clock), chain) ==> ChainBlocks(node.tree, chain, from, blocks)
      {
        FixedTip(node, old(node.clock), node.clock, chain);
        var block := node.BlockByNumber(number);
        if block.None? {
          break;
        }
        blocks := blocks + [block.value];
        number := number + 1;
      }
    }

    /** Fetches and stores canonical blocks above the head, at most up to `maxHeight`. */
    method SyncForwards(maxBlocks: int, maxHeight: int, ghost chain: Hash)
      returns (r: Result<int>, ghost fetched: seq<Block>)
      requires Valid() && currentBranch == [] && head.Some? && 0 <= maxBlocks
      modifies this`head, this`currentBranch, this`calls, db, node
      ensures old(node.clock) <= node.clock
      ensures r.Success? ==> Valid() && currentBranch == [] && head.Some? && 0 <= r.value <= maxBlocks
      ensures r.Success? ==> |db.blocks| == |old(db.blocks)| + r.value && old(calls) <= calls
      ensures r.Success? && r.value == 0 ==> calls == old(calls)
      ensures r.Success? ==> AtMost(Delivered(calls)[|old(calls)|..], Some(maxHeight))
      // what is fetched: the blocks that were canonical when asked for, up to the limits or the first missing one
      ensures FollowsCanonical(node, old(node.clock), old(head).value.number + 1,
                               Min(maxBlocks, maxHeight - old(head).value.number), fetched)
      ensures r.Success? ==> Delivered(calls)[|old(calls)|..] == fetched
      // each error has its cause
      ensures r == Failure(UnknownForkBase) <==> LacksBase(old(db.blocks), fetched, initialBlocknr)
      ensures r == Failure(BranchNotConnected) ==> !IsBranch(fetched)
      ensures r == Failure(BlockAlreadyKnown) ==> !old(HeadIsTop())
      ensures r.Failure? ==> r.error in {UnknownForkBase, BranchNotConnected, BlockAlreadyKnown}
      ensures r.Success? && old(HeadIsTop()) ==> HeadIsTop()
      ensures FixedTo(node, old(node.clock), chain) && old(OnlyOn(chain)) ==> r.Success? && OnlyOn(chain)
    {
      hide FixedTo, InSync, FromTree, Descends, Insertable, Filed, IsTree, AncestorAt, ChainBlocks, OnChain;
      hide FollowsCanonical, Delivered, CallsFor, AtMost, IsTop, HashesDiffer, NoneStored, IsBranch;
      HeadIsStored(node.tree, db.blocks, calls, head, initialBlocknr);
      var from := head.value.number + 1;
      var blocks := CanonicalBlocks(from, Min(from + maxBlocks, maxHeight + 1), chain);
      fetched := blocks;
      if FixedTo(node, old(node.clock), chain) && OnlyOn(chain) {
        ChainIsInsertable(node.tree, db.blocks, calls, head, initialBlocknr, chain, blocks);
      }
      if HeadIsTop() {
        AboveTopIsNew(node.tree, db.blocks, calls, head, initialBlocknr, currentBranch, blocks);
      }
      var inserted := InsertBranch(blocks);
      if inserted.Failure? {
        return Failure(inserted.error), fetched;
      }
      NewlyDelivered(old(calls), blocks, db.blocks);
      NumberedFromAtMost(blocks, from, maxHeight);
      if old(OnlyOn(chain)) {
        OnChainWithMore(node.tree, chain, Delivered(old(calls)), blocks);
      }
      if old(HeadIsTop()) {
        LastIsTop(old(calls), old(head), blocks, db.blocks);
      }
      NothingInProgress(node.tree, db.blocks, initialBlocknr);
      return Success(|blocks|), fetched;
    }

    // -------------------------------------------------------------------------
    // Backwards
    // -------------------------------------------------------------------------

    /** Fetches a block by number, or the latest one; it must not lie before the initial block. */
    method GetBlockByNumber(number: Option<int>, ghost chain: Hash) returns (r: Result<Block>)
      requires node.WellFormed()
      modifies node
      ensures node.clock == old(node.clock) + 1
      ensures r == Failure(BlockNotFound) <==> number.Some? && node.CanonicalAt(old(node.clock), number.value).None?
      ensures r.Success? ==> initialBlocknr <= r.value.number
      ensures r.Success? && number.Some? ==> node.CanonicalAt(old(node.clock), number.value) == Some(r.value)
      ensures r.Success? && number.None? ==> r.value == node.TipAt(old(node.clock))
      ensures var target := TargetAt(node, old(node.clock), number);
              r == if target.None? then Failure(BlockNotFound)
                   else if target.value.number < initialBlocknr then Failure(UnknownForkBase)
                   else Success(target.value)
    {
      var block: Option<Block>;
      if number.Some? {
        block := node.BlockByNumber(number.value);
      } else {
        var latest := node.LatestBlock();
        block := Some(latest);
      }
      if block.None? {
        return Failure(BlockNotFound);
      }
      if block.value.number < initialBlocknr {
        return Failure(UnknownForkBase);
      }
      return Success(block.value);
    }

    method GetBlockByHash(hash: Hash) returns (r: Result<Block>)
      requires node.WellFormed()
      modifies node
      ensures node.clock == old(node.clock) + 1
      ensures r.Success? ==> r.value.hash == hash
      ensures r == if hash !in node.tree then Failure(BlockNotFound)
                   else if node.tree[hash].number < initialBlocknr then Failure(UnknownForkBase)
                   else Success(node.tree[hash])
    {
      var block := node.BlockByHash(hash);
      if block.None? {
        return Failure(BlockNotFound);
      }
      if block.value.number < initialBlocknr {
        return Failure(UnknownForkBase);
      }
      return Success(block.value);
    }

    /** Follows parents until one is stored or the branch has `limit` blocks. */
    method FetchParents(limit: int, ghost cap: Option<int>, ghost chain: Hash) returns (r: Result<()>)
      requires Synced() && db.blocks != map[] && currentBranch != []
      requires Linked(node.tree, db.blocks, currentBranch, initialBlocknr) && AtMost(currentBranch, cap)
      modifies this`currentBranch, node
      ensures old(node.clock) <= node.clock
      ensures r.Success? ==> Linked(node.tree, db.blocks, currentBranch, initialBlocknr) && AtMost(currentBranch, cap)
      ensures r.Success? ==> old(currentBranch) <= currentBranch && |currentBranch| <= Max(limit, |old(currentBranch)|)
      ensures r.Success? ==> currentBranch[|currentBranch| - 1].parentHash in db.blocks || limit <= |currentBranch|
      ensures r.Failure? ==> r.error in {BlockNotFound, UnknownForkBase}
      ensures old(OnlyOn(chain)) ==> r.Success? && OnlyOn(chain)
    {
      hide InSync, Linked, AtMost, OnChain, FromTree, IsTree, AncestorAt, Delivered;
      while |currentBranch| < limit && !db.Contains(currentBranch[|currentBranch| - 1].parentHash)
        invariant currentBranch != [] && old(currentBranch) <= currentBranch
        invariant |currentBranch| <= Max(limit, |old(currentBranch)|)
        invariant old(node.clock) <= node.clock
        invariant Linked(node.tree, db.blocks, currentBranch, initialBlocknr) && AtMost(currentBranch, cap)
        invariant old(OnlyOn(chain)) ==> OnlyOn(chain)
        decreases limit - |currentBranch|
      {
        if OnlyOn(chain) {
          ParentCanBeFetched(node.tree, db.blocks, calls, head, initialBlocknr, chain, currentBranch);
        }
        var parent :- GetBlockByHash(currentBranch[|currentBranch| - 1].parentHash);
        AppendParent(node.tree, db.blocks, currentBranch, initialBlocknr, cap, parent);
        currentBranch := currentBranch + [parent];
      }
      return Success(());
    }

    /**
     * Starts or continues a branch with at most `maxBlocks` more blocks. It is complete when its last
     * block's parent is stored; nothing is started if the target itself is stored.
     */
    method FetchBranch(maxBlocks: int, cap: Option<int>, ghost bound: Option<int>, ghost chain: Hash)
      returns (r: Result<bool>)
      requires Valid() && db.blocks != map[] && AtMost(currentBranch, bound) && Within(cap, bound)
      modifies this`currentBranch, node
      ensures old(node.clock) <= node.clock
      ensures r.Success? ==> Linked(node.tree, db.blocks, currentBranch, initialBlocknr) && AtMost(currentBranch, bound)
      ensures r.Success? ==> old(currentBranch) <= currentBranch && |currentBranch| <= |old(currentBranch)| + maxBlocks
      ensures r.Success? && maxBlocks == 0 ==> !r.value && currentBranch == old(currentBranch)
      ensures r.Success? && maxBlocks > 0 && currentBranch == [] ==>
              r.value && old(node.clock) < node.clock && IsStoredTarget(old(node.clock), cap)
      ensures r.Success? && maxBlocks > 0 && currentBranch != [] ==>
                |old(currentBranch)| < |currentBranch| &&
                (r.value <==> currentBranch[|currentBranch| - 1].parentHash in db.blocks)
      ensures r.Success? && !r.value ==> |currentBranch| == |old(currentBranch)| + maxBlocks
      ensures r.Success? && old(currentBranch) == [] && currentBranch != [] ==>
              TargetAt(node, old(node.clock), cap) == Some(currentBranch[0])
      ensures r.Failure? ==> r.error in {BlockNotFound, UnknownForkBase} || (r.error == NegativeLimit && maxBlocks < 0)
      ensures 0 <= maxBlocks && FixedTo(node, old(node.clock), chain) && old(OnlyOn(chain)) &&
              CapOnChain(node.tree, chain, cap, initialBlocknr) ==>
                r.Success? && OnlyOn(chain)
    {
      hide InSync, AtMost, OnChain, FromTree, FixedTo, TargetAt, CapOnChain, IsTree, AncestorAt, NoneStored, Descends;
      hide Delivered;
      if maxBlocks < 0 {
        return Failure(NegativeLimit);
      }
      if maxBlocks == 0 {
        return Success(false);
      }
      var limit := |currentBranch| + maxBlocks;
      if |currentBranch| == 0 {
        FixedTip(node, node.clock, node.clock, chain);
        InitialIsNatural(node.tree, db.blocks, calls, head, initialBlocknr);
        TargetOnChain(node, node.clock, cap, chain, initialBlocknr);
        var target :- GetBlockByNumber(cap, chain);
        if db.Contains(target.hash) {
          return Success(true);
        }
        FirstOfBranch(node.tree, db.blocks, initialBlocknr, bound, target, chain);
        currentBranch := [target];
      }
      var _ :- FetchParents(limit, bound, chain);
      return Success(db.Contains(currentBranch[|currentBranch| - 1].parentHash));
    }

    /** Starts or continues a branch and, when it is complete, stores it. */
    method SyncBackwards(maxBlocks: int, cap: Option<int>, ghost bound: Option<int>, ghost chain: Hash)
      returns (r: Result<int>)
      requires Valid() && db.blocks != map[] && AtMost(currentBranch, bound) && Within(cap, bound)
      modifies this`head, this`currentBranch, this`calls, db, node
      ensures old(node.clock) <= node.clock
      ensures r.Success? ==> Valid() && db.blocks != map[] && 0 <= r.value <= maxBlocks
      ensures r.Success? ==> |db.blocks| + |currentBranch| == |old(db.blocks)| + |old(currentBranch)| + r.value
      ensures r.Success? ==> old(calls) <= calls
      ensures r.Success? ==> AtMost(currentBranch, bound) && AtMost(Delivered(calls)[|old(calls)|..], bound)
      ensures r.Success? && r.value < maxBlocks ==> currentBranch == []
      ensures r.Success? && cap.Some? && old(HeadIsTop() && CallsAtMost(calls, 1, cap)) ==> HeadIsTop()
      ensures r.Success? && maxBlocks > 0 && r.value == 0 ==>
                && currentBranch == [] && old(currentBranch) == [] && calls == old(calls)
                && old(node.clock) < node.clock && IsStoredTarget(old(node.clock), cap)
      ensures r.Failure? ==> r.error in {BlockNotFound, UnknownForkBase} || (r.error == NegativeLimit && maxBlocks < 0)
      ensures 0 <= maxBlocks && FixedTo(node, old(node.clock), chain) && old(OnlyOn(chain)) &&
              CapOnChain(node.tree, chain, cap, initialBlocknr) ==>
                r.Success? && OnlyOn(chain)
    {
      hide InSync, AtMost, OnChain, FromTree, FixedTo, TargetAt, CapOnChain, IsTree, AncestorAt, NoneStored, Descends;
      hide Delivered, Linked;
      hide IsTop, CallsAtMost;
      var lengthBefore := |currentBranch|;
      var complete :- FetchBranch(maxBlocks, cap, bound, chain);
      var fetched := |currentBranch| - lengthBefore;
      NothingInProgress(node.tree, db.blocks, initialBlocknr);
      assert Delivered(calls)[|calls|..] == [];
      if cap.Some? && old(HeadIsTop() && CallsAtMost(calls, 1, cap)) {
        BranchKeepsTop(node, old(node.clock), db.blocks, calls, head, initialBlocknr, old(currentBranch),
            currentBranch, cap);
      }
      if complete && |currentBranch| > 0 {
        CompleteBranch(chain, bound);
      }
      return Success(fetched);
    }

    /** Stores a branch whose last block's parent is stored; this cannot fail. */
    method CompleteBranch(ghost chain: Hash, ghost cap: Option<int>)
      requires Synced() && Linked(node.tree, db.blocks, currentBranch, initialBlocknr) && AtMost(currentBranch, cap)
      requires currentBranch != [] && currentBranch[|currentBranch| - 1].parentHash in db.blocks
      modifies this`head, this`currentBranch, this`calls, db
      ensures Valid() && db.blocks != map[] && currentBranch == []
      ensures |db.blocks| == |old(db.blocks)| + |old(currentBranch)|
      ensures calls == old(calls) + CallsFor(Reversed(old(currentBranch)), db.blocks) &&
              head == Some(old(currentBranch)[0])
      ensures old(calls) <= calls && AtMost(Delivered(calls)[|old(calls)|..], cap)
      ensures old(HeadIsTop()) ==> HeadIsTop()
      ensures old(OnlyOn(chain)) ==> OnlyOn(chain)
    {
      hide InSync, Linked, AtMost, OnChain, FromTree, IsTree, AncestorAt, Insertable, Filed, Reversed, CallsFor;
      hide Delivered;
      hide IsTop;
      BranchHeadIsTop(node.tree, db.blocks, calls, head, initialBlocknr, currentBranch);
      ghost var branch := Reversed(currentBranch);
      BranchIsInsertable(node.tree, db.blocks, calls, head, initialBlocknr, currentBranch, cap, chain);
      var r := InsertBranch(Reversed(currentBranch));
      DeliveredWithMore(old(calls), branch, db.blocks);
      if old(OnlyOn(chain)) {
        OnChainWithMore(node.tree, chain, Delivered(old(calls)), branch);
      }
      NothingInProgress(node.tree, db.blocks, initialBlocknr);
    }

    // -------------------------------------------------------------------------
    // Both
    // -------------------------------------------------------------------------

    /** The number of the initial block, or the one it will have if call `t` selects it. */
    ghost function StartNumber(t: nat, chain: Hash): int
      requires node.WellFormed() && chain in node.tree
      reads this`initialBlocknr, db
    {
      if db.blocks != map[] then initialBlocknr
      else if node.selected(t).Some? then
        Min(node.tree[node.selected(t).value].number, Max(node.tree[chain].number - maxReorgDepth, 0))
      else 0
    }

    /** The selected block, or the latest one that is deep enough if that comes earlier. */
    method ChooseFirstBlock(ghost chain: Hash) returns (r: Result<Block>)
      requires node.WellFormed() && db.blocks == map[]
      modifies node
      ensures old(node.clock) <= node.clock
      ensures r.Success? ==> r.value.hash in node.tree && node.tree[r.value.hash] == r.value
      ensures r == Failure(NoInitialBlock) <==> node.selected(old(node.clock)).None?
      ensures node.selected(old(node.clock)).Some? ==>
                var selected := node.tree[node.selected(old(node.clock)).value];
                var safe := Max(node.TipAt(old(node.clock) + 1).number - maxReorgDepth, 0);
                var canonical := node.CanonicalAt(old(node.clock) + 2, safe);
                r == if selected.number <= safe then Success(selected)
                     else if canonical.Some? then Success(canonical.value)
                     else Failure(BlockNotFound)
      ensures r.Failure? ==> r.error in {NoInitialBlock, BlockNotFound}
      ensures FixedTo(node, old(node.clock), chain) ==>
                && r.Success? && r.value.number == old(StartNumber(node.clock, chain))
                && AncestorAt(node.tree, chain, r.value.number) == Some(r.value)
    {
      hide FixedTo, AncestorAt, IsTree;
      if node.selected(node.clock).Some? {
        SelectedIsFiled(node, node.clock);
      }
      if FixedTo(node, node.clock, chain) {
        FirstOnFixedChain(node, node.clock, chain, maxReorgDepth);
      }
      var selected := node.InitialBlock();
      if selected.None? {
        return Failure(NoInitialBlock);
      }
      var latest := node.LatestBlock();
      var safe := Max(latest.number - maxReorgDepth, 0);
      if selected.value.number <= safe {
        return Success(selected.value);
      }
      var block := node.BlockByNumber(safe);
      if block.None? {
        return Failure(BlockNotFound);
      }
      return Success(block.value);
    }

    /** Stores the first block and takes its number as the initial one. */
    method InsertFirstBlock(ghost chain: Hash) returns (r: Result<()>)
      requires Valid() && db.blocks == map[]
      modifies this`head, this`currentBranch, this`calls, this`initialBlocknr, db, node
      ensures old(node.clock) <= node.clock
      ensures r.Success? ==> Valid() && currentBranch == [] && |db.blocks| == 1 && |calls| == 1 && HeadIsTop()
      ensures r.Success? ==> head == Some(calls[0].block)
      // the selected block, but not one that is less than the reorg depth below the latest
      ensures r == Failure(NoInitialBlock) <==> node.selected(old(node.clock)).None?
      ensures r.Success? ==>
                var selected := node.tree[node.selected(old(node.clock)).value];
                var safe := Max(node.TipAt(old(node.clock) + 1).number - maxReorgDepth, 0);
                && initialBlocknr == calls[0].block.number == Min(selected.number, safe)
                && (if selected.number <= safe then calls[0].block == selected
                    else node.CanonicalAt(old(node.clock) + 2, safe) == Some(calls[0].block))
      ensures r.Failure? ==> r.error in {NoInitialBlock, BlockNotFound}
      ensures FixedTo(node, old(node.clock), chain) ==>
                r.Success? && OnlyOn(chain) && initialBlocknr == old(StartNumber(node.clock, chain))
    {
      hide FixedTo, InSync, OnChain, FromTree, InProgress, AncestorAt, IsTree, Delivered, IsTop;
      FixedTip(node, node.clock, node.clock, chain);
      var block :- ChooseFirstBlock(chain);
      StoreFirstBlock(block, chain);
      return Success(());
    }

    /** A single block of any number can always be stored first. */
    method StoreFirstBlock(block: Block, ghost chain: Hash)
      requires Valid() && db.blocks == map[] && block.hash in node.tree && node.tree[block.hash] == block
      modifies this`head, this`currentBranch, this`calls, this`initialBlocknr, db
      ensures Valid() && HeadIsTop() && currentBranch == [] && |db.blocks| == 1
      ensures initialBlocknr == block.number && head == Some(block) && calls == [Call(block, db.blocks)]
      ensures chain in node.tree && AncestorAt(node.tree, chain, block.number) == Some(block) ==> OnlyOn(chain)
    {
      hide InSync, OnChain, FromTree, InProgress, AncestorAt, IsTree, Delivered, Insertable, Filed;
      hide IsBranch, HashesDiffer, NoneStored;
      NothingYet(node.tree, calls, head, initialBlocknr);
      initialBlocknr := block.number;
      SingleInsertable(node.tree, chain, db.blocks, block);
      var _ := InsertBranch([block]);
      NothingInProgress(node.tree, db.blocks, initialBlocknr);
      DeliveredWithMore([], [block], db.blocks);
      assert [] + [block] == [block];
    }

    /** Fetches, stores and passes on at most `maxBlocks` new blocks up to height `cap`. */
    method FetchAndInsertNewBlocks(maxBlocks: int, cap: Option<int>, ghost chain: Hash)
      returns (r: Result<int>, ghost asked: nat)
      requires Valid()
      modifies this`head, this`currentBranch, this`calls, this`initialBlocknr, db, node
      ensures old(node.clock) <= node.clock
      ensures r.Success? ==> Valid() && old(calls) <= calls
      // conservation: every fetched block is stored or part of the branch in progress
      ensures r.Success? ==> 0 <= r.value <= Max(0, maxBlocks)
      ensures r.Success? ==> |db.blocks| + |currentBranch| == |old(db.blocks)| + |old(currentBranch)| + r.value
      // completeness: when nothing is left to fetch, the target is stored
      ensures r.Success? && 1 <= maxBlocks && r.value == 0 ==>
                && currentBranch == [] && calls == old(calls)
                && old(node.clock) <= asked < node.clock && IsStoredTarget(asked, cap)
      // the height cap
      ensures r.Success? && old(AtMost(currentBranch, cap)) ==>
                AtMost(currentBranch, cap) && CallsAtMost(calls, Max(1, |old(calls)|), cap)
      ensures r.Failure? ==>
                r.error in {NoInitialBlock, BlockNotFound, UnknownForkBase, BranchNotConnected, BlockAlreadyKnown}
      // forward blocks are new as long as nothing above the head has been delivered, and a capped sync keeps it so
      ensures r == Failure(BlockAlreadyKnown) ==> !old(HeadIsTop())
      ensures r.Success? && cap.Some? && old(HeadIsTop() && CallsAtMost(calls, 1, cap)) ==> HeadIsTop()
      ensures NotReplaced(node, maxReorgDepth) ==> r != Failure(BranchNotConnected)
      // a head that was replaced while the node moved on by more than the reorg depth ends the process
      ensures NotReplaced(node, maxReorgDepth) && old(HeadIsTop() && HeadIsOutdated(node.clock, cap)) &&
              1 <= maxBlocks ==>
                r == Failure(UnknownForkBase)
      // the limit is used up unless no branch is left in progress
      ensures r.Success? && r.value < maxBlocks ==> currentBranch == []
      // on a fixed chain nothing goes wrong
      ensures FixedTo(node, old(node.clock), chain) && old(OnlyOn(chain)) &&
              CapOnChain(node.tree, chain, cap, old(StartNumber(node.clock, chain))) ==>
                && r.Success? && OnlyOn(chain)
                && (1 <= maxBlocks ==> db.blocks != map[] && initialBlocknr == old(StartNumber(node.clock, chain)))
      // then, unless a branch was in progress, all deep blocks are passed on as far as the cap and the limit allow
      ensures FixedTo(node, old(node.clock), chain) && old(OnlyOn(chain)) &&
              CapOnChain(node.tree, chain, cap, old(StartNumber(node.clock, chain))) &&
              old(currentBranch) == [] && old(head).Some? && 1 <= maxBlocks ==>
                forall n :: initialBlocknr <= n <= old(head).value.number + maxBlocks &&
                            n <= node.tree[chain].number - maxReorgDepth && (cap.Some? ==> n <= cap.value) ==>
                              && AncestorAt(node.tree, chain, n).Some?
                              && AncestorAt(node.tree, chain, n).value in Delivered(calls)
      ensures FixedTo(node, old(node.clock), chain) && old(OnlyOn(chain)) &&
              CapOnChain(node.tree, chain, cap, old(StartNumber(node.clock, chain))) &&
              old(db.blocks) == map[] && 1 <= maxBlocks ==>
                forall n :: initialBlocknr <= n < initialBlocknr + maxBlocks &&
                            n <= node.tree[chain].number - maxReorgDepth && (cap.Some? ==> n <= cap.value) ==>
                              && AncestorAt(node.tree, chain, n).Some?
                              && AncestorAt(node.tree, chain, n).value in Delivered(calls)
    {
      hide FixedTo, InSync, OnChain, FromTree, InProgress, AncestorAt, IsTree, Delivered, AtMost, CallsAtMost;
      hide CapOnChain, TargetAt;
      hide IsTop, NotReplaced;
      asked := node.clock;
      NoneAtMost(calls, cap);
      if maxBlocks < 1 {
        return Success(0), asked;
      }
      var synced := 0;
      HeadIsStored(node.tree, db.blocks, calls, head, initialBlocknr);
      EmptyMeansNothing(node.tree, db.blocks, calls, head, initialBlocknr, currentBranch);
      ghost var t := node.clock;
      if db.IsEmpty() {
        var first := InsertFirstBlock(chain);
        if first.Failure? {
          return Failure(first.error), asked;
        }
        synced := 1;
        NoneAtMost(calls, cap);
        NothingInProgress(node.tree, db.blocks, initialBlocknr);
      }
      FixedTip(node, t, node.clock, chain);
      r, asked := SyncStored(maxBlocks - synced, cap, chain);
      if r.Success? {
        r := Success(synced + r.value);
      }
    }

    /** Once there is an initial block: forwards unless a branch is in progress, then backwards. */
    method SyncStored(maxBlocks: int, cap: Option<int>, ghost chain: Hash) returns (r: Result<int>, ghost asked: nat)
      requires Valid() && db.blocks != map[] && 0 <= maxBlocks
      modifies this`head, this`currentBranch, this`calls, db, node
      ensures old(node.clock) <= node.clock
      ensures r.Success? ==> Valid() && db.blocks != map[] && old(calls) <= calls && 0 <= r.value <= maxBlocks
      ensures r.Success? ==> |db.blocks| + |currentBranch| == |old(db.blocks)| + |old(currentBranch)| + r.value
      ensures r.Success? && r.value < maxBlocks ==> currentBranch == []
      ensures r == Failure(BlockAlreadyKnown) ==> !old(HeadIsTop())
      ensures r.Success? && cap.Some? && old(HeadIsTop() && CallsAtMost(calls, 1, cap)) ==> HeadIsTop()
      ensures NotReplaced(node, maxReorgDepth) ==> r != Failure(BranchNotConnected)
      // a head that was replaced while the node moved on by more than the reorg depth ends the process
      ensures NotReplaced(node, maxReorgDepth) && old(HeadIsTop() && HeadIsOutdated(node.clock, cap)) &&
              1 <= maxBlocks ==>
                r == Failure(UnknownForkBase)
      ensures r.Success? && 1 <= maxBlocks && r.value == 0 ==>
                && currentBranch == [] && calls == old(calls)
                && old(node.clock) <= asked < node.clock && IsStoredTarget(asked, cap)
      ensures r.Success? && old(AtMost(currentBranch, cap)) ==>
              AtMost(currentBranch, cap) && CallsAtMost(calls, |old(calls)|, cap)
      ensures r.Failure? ==> r.error in {BlockNotFound, UnknownForkBase, BranchNotConnected, BlockAlreadyKnown}
      ensures FixedTo(node, old(node.clock), chain) && old(OnlyOn(chain)) &&
              CapOnChain(node.tree, chain, cap, initialBlocknr) ==>
                r.Success? && OnlyOn(chain)
      // then, unless a branch was in progress, all deep blocks are passed on as far as the cap and the limit allow
      ensures old(head).Some?
      ensures FixedTo(node, old(node.clock), chain) && old(OnlyOn(chain)) &&
              CapOnChain(node.tree, chain, cap, initialBlocknr) && old(currentBranch) == [] ==>
                forall n :: initialBlocknr <= n <= old(head).value.number + maxBlocks &&
                            n <= node.tree[chain].number - maxReorgDepth && (cap.Some? ==> n <= cap.value) ==>
                              && AncestorAt(node.tree, chain, n).Some?
                              && AncestorAt(node.tree, chain, n).value in Delivered(calls)
    {
      hide FixedTo, InSync, OnChain, FromTree, InProgress, AncestorAt, IsTree, Delivered, AtMost, CallsAtMost;
      hide CapOnChain, TargetAt;
      hide IsTop, NotReplaced;
      ghost var t, before, bound := node.clock, calls, if AtMost(currentBranch, cap) then cap else None;
      EmptyMeansNothing(node.tree, db.blocks, calls, head, initialBlocknr, currentBranch);
      HeadIsStored(node.tree, db.blocks, calls, head, initialBlocknr);
      asked := node.clock;
      NoneAtMost(calls, cap);
      NoBound(currentBranch);
      var synced := 0;
      if |currentBranch| == 0 {
        var forward := SyncForwardsToTarget(maxBlocks, cap, chain);
        if forward.Failure? {
          return Failure(forward.error), asked;
        }
        synced := forward.value;
        CallsAreAtMost(before, before, calls, cap);
        NothingInProgress(node.tree, db.blocks, initialBlocknr);
      }
      assert 0 <= synced <= maxBlocks;
      FixedTip(node, t, node.clock, chain);
      asked := node.clock;
      ghost var mid, midHead, midTable := calls, head, db.blocks;
      CallsStayWithin(before, mid, cap);
      var backward := SyncBackwards(maxBlocks - synced, cap, bound, chain);
      if backward.Failure? {
        return Failure(backward.error), asked;
      }
      if bound == cap {
        CallsAreAtMost(before, mid, calls, cap);
      }
      if FixedTo(node, t, chain) && old(OnlyOn(chain)) && old(currentBranch) == [] {
        DeliveredUpToHead(node.tree, midTable, mid, calls, midHead, initialBlocknr, chain);
      }
      return Success(synced + backward.value), asked;
    }

    /** The block numbered `n` of the chain that is canonical at call `t` is stored. */
    ghost predicate IsCanonicalStored(t: nat, n: int)
      requires node.WellFormed()
      reads db
    {
      node.CanonicalAt(t, n).Some? && node.CanonicalAt(t, n).value.hash in db.blocks
    }

    /** There are blocks to sync forwards, but the canonical block below them is not stored. */
    ghost predicate HeadIsOutdated(t: nat, cap: Option<int>)
      requires node.WellFormed()
      reads this`head, this`currentBranch, db
    {
      && db.blocks != map[] && currentBranch == [] && head.Some?
      && head.value.number < Max(node.TipAt(t).number - maxReorgDepth, 0)
      && (cap.Some? ==> head.value.number < cap.value)
      && !IsCanonicalStored(t, head.value.number)
    }

    /** Syncs forwards up to the blocks that are deep enough not to be replaced, and up to the cap. */
    method SyncForwardsToTarget(maxBlocks: int, cap: Option<int>, ghost chain: Hash) returns (r: Result<int>)
      requires Valid() && currentBranch == [] && db.blocks != map[] && 0 <= maxBlocks
      modifies this`head, this`currentBranch, this`calls, db, node
      ensures old(node.clock) <= node.clock
      ensures r.Success? ==> Valid() && currentBranch == [] && db.blocks != map[] && 0 <= r.value <= maxBlocks
      ensures r.Success? ==> |db.blocks| == |old(db.blocks)| + r.value && old(calls) <= calls
      ensures r.Success? && r.value == 0 ==> calls == old(calls)
      ensures r.Success? ==> AtMost(Delivered(calls)[|old(calls)|..], cap)
      // only blocks that are too deep to be replaced are synced forwards, and as many as allowed
      ensures old(head).Some?
      ensures r.Success? ==>
                var deep := Max(node.TipAt(old(node.clock)).number - maxReorgDepth, 0);
                var target := if cap.Some? then Min(deep, cap.value) else deep;
                FollowsCanonical(node, old(node.clock) + 1, old(head).value.number + 1,
                                 Min(maxBlocks, target - old(head).value.number), Delivered(calls)[|old(calls)|..])
      ensures r.Failure? ==> r.error in {UnknownForkBase, BranchNotConnected, BlockAlreadyKnown}
      ensures r == Failure(BlockAlreadyKnown) ==> !old(HeadIsTop())
      ensures r.Success? && old(HeadIsTop()) ==> HeadIsTop()
      // if deep blocks are not replaced, it fails exactly when there is something to fetch on top of an unknown block
      ensures NotReplaced(node, maxReorgDepth) ==> r != Failure(BranchNotConnected)
      ensures NotReplaced(node, maxReorgDepth) && old(HeadIsTop()) ==>
                (r.Failure? <==> 0 < maxBlocks && old(HeadIsOutdated(node.clock, cap)))
      ensures FixedTo(node, old(node.clock), chain) && old(OnlyOn(chain)) ==> r.Success? && OnlyOn(chain)
      // on a fixed chain the head moves on to the target or as far as the limit allows
      ensures FixedTo(node, old(node.clock), chain) && old(OnlyOn(chain)) ==>
                && head.Some?
                && (|| old(head).value.number + maxBlocks <= head.value.number
                    || node.tree[chain].number - maxReorgDepth <= head.value.number
                    || (cap.Some? && cap.value <= head.value.number))
    {
      hide FixedTo, InSync, OnChain, FromTree, AncestorAt, IsTree, Delivered, AtMost, FollowsCanonical;
      hide NotReplaced, IsTop, IsBranch;
      HeadIsStored(node.tree, db.blocks, calls, head, initialBlocknr);
      FixedTip(node, node.clock, node.clock, chain);
      var blockNumber := node.BlockNumber();
      var target := Max(blockNumber - maxReorgDepth, 0);
      var maxHeight := if cap.None? then target else Min(target, cap.value);
      FixedTip(node, old(node.clock), node.clock, chain);
      ghost var t, n := old(node.clock), Min(maxBlocks, maxHeight - head.value.number);
      ghost var fetched;
      r, fetched := SyncForwards(maxBlocks, maxHeight, chain);
      if NotReplaced(node, maxReorgDepth) {
        DeepBlocksConnect(node, maxReorgDepth, t, old(head).value.number + 1, n, fetched);
      }
      if r.Success? {
        LowerCap(Delivered(calls)[|old(calls)|..], maxHeight, cap);
        HeadIsStored(node.tree, db.blocks, calls, head, initialBlocknr);
      }
      if FixedTo(node, old(node.clock), chain) && old(OnlyOn(chain)) {
        ForwardsOnFixedChain(node, t + 1, chain, old(head).value.number + 1, n, fetched);
        HeadOnChain(node.tree, old(db.blocks), old(calls), old(head), initialBlocknr, chain);
        HeadOnChain(node.tree, db.blocks, calls, head, initialBlocknr, chain);
      }
    }

    /**
     * Repeated calls on a fixed chain, with any batch sizes, until one has nothing left to fetch:
     * exactly the blocks from the initial one to the target are passed on, in the order of their
     * numbers, and no more calls are productive than there are such blocks.
     */
    method RunUntilSynced(batches: seq<int>, cap: Option<int>, ghost chain: Hash) returns (productive: nat, done: bool)
      requires Valid() && db.blocks == map[] && FixedTo(node, node.clock, chain)
      requires CapOnChain(node.tree, chain, cap, StartNumber(node.clock, chain))
      requires forall b :: b in batches ==> 1 <= b
      modifies this`head, this`currentBranch, this`calls, this`initialBlocknr, db, node
      ensures batches != [] ==> initialBlocknr == old(StartNumber(node.clock, chain))
      ensures batches != [] ==>
                productive <= (if cap.Some? then cap.value else node.tree[chain].number) - initialBlocknr + 1
      ensures !done ==> productive == |batches|
      ensures batches != [] ==>
                && node.selected(old(node.clock)).Some?
                && initialBlocknr == Min(node.tree[node.selected(old(node.clock)).value].number,
                                         Max(node.tree[chain].number - maxReorgDepth, 0))
      ensures done ==>
                && |calls| == (if cap.Some? then cap.value else node.tree[chain].number) - initialBlocknr + 1
                && forall i :: 0 <= i < |calls| ==>
                    AncestorAt(node.tree, chain, initialBlocknr + i) == Some(calls[i].block)
      ensures done ==> DeliversChain(node.tree, chain, initialBlocknr, TopNumber(node, chain, cap), Delivered(calls))
    {
      hide FixedTo, InSync, OnChain, FromTree, AncestorAt, IsTree, Delivered, AtMost, CallsAtMost, CapOnChain;
      hide TargetAt, InProgress, DeliversChain;
      productive, done := 0, false;
      FixedSelects(node, node.clock, chain);
      FixedTip(node, node.clock, node.clock, chain);
      ghost var t0, initial, top := node.clock, StartNumber(node.clock, chain), TopNumber(node, chain, cap);
      EmptyMeansNothing(node.tree, db.blocks, calls, head, initialBlocknr, currentBranch);
      NothingOnChain(node, chain, calls);
      NothingInProgress(node.tree, db.blocks, initialBlocknr);
      NoneAtMost(calls, cap);
      var i := 0;
      while i < |batches| && !done
        invariant 0 <= i <= |batches| && t0 <= node.clock
        invariant Valid() && OnlyOn(chain) && AtMost(currentBranch, cap) && CallsAtMost(calls, 1, cap)
        invariant i > 0 ==> db.blocks != map[] && initialBlocknr == initial
        invariant i == 0 ==> db.blocks == map[] && StartNumber(node.clock, chain) == initial
        invariant productive <= |db.blocks| + |currentBranch|
        invariant if done then productive < i else productive == i
        invariant done ==> DeliversChain(node.tree, chain, initialBlocknr, top, Delivered(calls))
      {
        FixedTip(node, t0, node.clock, chain);
        assert batches[i] in batches;
        ghost var before := calls;
        var r, asked := FetchAndInsertNewBlocks(batches[i], cap, chain);
        CallsStayAtMost(before, calls, cap);
        if r.value == 0 {
          done := true;
          FixedTip(node, t0, asked, chain);
          ChainIsDelivered(node, asked, db.blocks, calls, head, initialBlocknr, chain, cap);
        } else {
          productive := productive + 1;
        }
        i := i + 1;
      }
      if done {
        DeliversMeans(node.tree, chain, initialBlocknr, top, calls);
      }
      if i > 0 {
        ChainBound(node, db.blocks, calls, head, initialBlocknr, currentBranch, chain, cap);
      }
    }

    /** The block asked for by call `t` is stored. */
    ghost predicate IsStoredTarget(t: nat, cap: Option<int>)
      requires node.WellFormed()
      reads db
    {
      TargetAt(node, t, cap).Some? && TargetAt(node, t, cap).value.hash in db.blocks
    }
  }

  /** The block at which a backward sync starts: the one numbered `cap`, or the latest one. */
  ghost function TargetAt(node: Node, t: nat, cap: Option<int>): Option<Block>
    requires node.WellFormed()
  {
    if cap.Some? then node.CanonicalAt(t, cap.value) else Some(node.TipAt(t))
  }

  lemma TargetOnChain(node: Node, t: nat, cap: Option<int>, chain: Hash, initial: int)
    requires node.WellFormed() && 0 <= initial
    ensures var target := TargetAt(node, t, cap);
            && (target.Some? ==> target.value.hash in node.tree && node.tree[target.value.hash] == target.value)
            && (target.Some? && cap.Some? ==> target.value.number == cap.value)
            && (FixedTo(node, t, chain) && CapOnChain(node.tree, chain, cap, initial) ==>
                  && target.Some? && initial <= target.value.number
                  && AncestorAt(node.tree, chain, target.value.number) == target)
  {
  }

  /** The height cap, if any, lies on the chain and not below the initial block. */
  ghost predicate CapOnChain(tree: map<Hash, Block>, chain: Hash, cap: Option<int>, initial: int) {
    && chain in tree && initial <= tree[chain].number
    && (cap.Some? ==> initial <= cap.value <= tree[chain].number)
  }

  lemma AppendParent(tree: map<Hash, Block>, table: map<Hash, Block>, branch: seq<Block>, initial: int,
      cap: Option<int>, parent: Block)
    requires IsTree(tree) && branch != [] && Linked(tree, table, branch, initial) && AtMost(branch, cap)
    requires parent.hash in tree && tree[parent.hash] == parent && initial <= parent.number
    requires parent.hash == branch[|branch| - 1].parentHash && parent.hash !in table
    ensures Linked(tree, table, branch + [parent], initial) && AtMost(branch + [parent], cap)
  {
    var all := branch + [parent];
    var last := branch[|branch| - 1];
    assert last in branch;
    assert last.number > 0 && parent.number == last.number - 1;
    assert forall i :: 0 <= i < |branch| ==> all[i] == branch[i];
  }

  lemma FirstOfBranch(tree: map<Hash, Block>, table: map<Hash, Block>, initial: int, cap: Option<int>, b: Block,
      chain: Hash)
    requires b.hash in tree && tree[b.hash] == b && initial <= b.number && b.hash !in table
    requires cap.Some? ==> b.number <= cap.value
    ensures Linked(tree, table, [b], initial) && AtMost([b], cap)
    ensures IsTree(tree) && chain in tree && AncestorAt(tree, chain, b.number) == Some(b) ==> OnChain(tree, chain, [b])
  {
  }

  lemma NothingInProgress(tree: map<Hash, Block>, table: map<Hash, Block>, initial: int)
    ensures InProgress(tree, table, [], initial)
    ensures forall cap :: AtMost([], cap)
  {
  }

  lemma FixedSelects(node: Node, t: nat, chain: Hash)
    requires node.WellFormed() && FixedTo(node, t, chain)
    ensures chain in node.tree && node.selected(t).Some?
    ensures var b := node.tree[node.selected(t).value]; AncestorAt(node.tree, chain, b.number) == Some(b)
  {
  }

  lemma SelectedIsFiled(node: Node, t: nat)
    requires node.WellFormed() && node.selected(t).Some?
    ensures node.selected(t).value in node.tree
    ensures node.tree[node.selected(t).value].hash == node.selected(t).value
  {
  }

  /** On a fixed chain the selected block and the latest one that is deep enough both lie on it. */
  lemma FirstOnFixedChain(node: Node, t: nat, chain: Hash, depth: nat)
    requires node.WellFormed() && FixedTo(node, t, chain)
    ensures chain in node.tree && node.TipAt(t + 1) == node.tree[chain] && node.selected(t).Some?
    ensures var b := node.tree[node.selected(t).value]; AncestorAt(node.tree, chain, b.number) == Some(b)
    ensures var safe := Max(node.tree[chain].number - depth, 0);
            && AncestorAt(node.tree, chain, safe).Some?
            && node.CanonicalAt(t + 2, safe) == AncestorAt(node.tree, chain, safe)
  {
    FixedSelects(node, t, chain);
  }

  /** While nothing is stored, any initial number is in order. */
  lemma NothingYet(tree: map<Hash, Block>, calls: seq<Call>, head: Option<Block>, initial: int)
    requires InSync(tree, map[], calls, head, initial)
    ensures calls == []
    ensures forall n :: 0 <= n ==> InSync(tree, map[], calls, head, n)
  {
    StoredIsEmpty(map[], Delivered(calls));
  }

  lemma SingleInsertable(tree: map<Hash, Block>, chain: Hash, table: map<Hash, Block>, b: Block)
    requires table == map[] && b.hash in tree && tree[b.hash] == b
    ensures Insertable(table, [b], b.number) && FromTree(tree, [b])
    ensures IsTree(tree) && chain in tree && AncestorAt(tree, chain, b.number) == Some(b) ==>
              OnChain(tree, chain, [b]) && OnChain(tree, chain, [])
    ensures Delivered([]) == []
  {
  }

  /** All calls from position `from` on are for blocks within the cap. */
  ghost predicate CallsAtMost(calls: seq<Call>, from: nat, cap: Option<int>) {
    cap.Some? ==> forall i :: from <= i < |calls| ==> calls[i].block.number <= cap.value
  }

  lemma NoneAtMost(calls: seq<Call>, cap: Option<int>)
    ensures CallsAtMost(calls, Max(1, |calls|), cap)
    ensures AtMost(Delivered(calls)[|calls|..], cap)
  {
  }

  lemma NewlyDelivered(calls: seq<Call>, blocks: seq<Block>, table: map<Hash, Block>)
    ensures Delivered(calls + CallsFor(blocks, table)) == Delivered(calls) + blocks
    ensures Delivered(calls + CallsFor(blocks, table))[|calls|..] == blocks
    ensures Delivered(calls)[|calls|..] == []
    ensures blocks == [] ==> Delivered(calls) + blocks == Delivered(calls)
  {
  }

  lemma NumberedFromAtMost(blocks: seq<Block>, from: int, maxHeight: int)
    requires forall i :: 0 <= i < |blocks| ==> blocks[i].number == from + i
    requires |blocks| <= Max(0, maxHeight + 1 - from)
    ensures AtMost(blocks, Some(maxHeight))
  {
  }

  /** Blocks that are numbered upwards from above the head are new. */
  lemma AboveTopIsNew(
      tree: map<Hash, Block>, table: map<Hash, Block>, calls: seq<Call>, head: Option<Block>, initial: int,
      branch: seq<Block>, blocks: seq<Block>)
    requires InSync(tree, table, calls, head, initial) && head.Some? && IsTop(calls, head, branch)
    requires FromTree(tree, blocks)
    requires forall i :: 0 <= i < |blocks| ==> blocks[i].number == head.value.number + 1 + i
    ensures HashesDiffer(blocks) && NoneStored(table, blocks)
  {
    forall i | 0 <= i < |blocks|
      ensures blocks[i].hash !in table && tree[blocks[i].hash] == blocks[i]
    {
      assert blocks[i] in blocks;
      if blocks[i].hash in table {
        StoredIsCalled(tree, table, calls, head, initial, blocks[i].hash);
      }
    }
  }

  /** A stored block is the tree's block of that hash, and there was a call for it. */
  lemma StoredIsCalled(
      tree: map<Hash, Block>, table: map<Hash, Block>, calls: seq<Call>, head: Option<Block>, initial: int, h: Hash)
    requires InSync(tree, table, calls, head, initial) && h in table
    ensures h in tree && tree[h] == table[h] && exists i :: 0 <= i < |calls| && calls[i].block == tree[h]
  {
    var b := table[h];
    assert b in Delivered(calls);
    var i :| 0 <= i < |calls| && Delivered(calls)[i] == b;
    assert calls[i].block == b;
  }

  /** After blocks numbered upwards from above the head, the last of them is the top. */
  lemma LastIsTop(calls: seq<Call>, head: Option<Block>, blocks: seq<Block>, table: map<Hash, Block>)
    requires IsTop(calls, head, []) && head.Some?
    requires forall i :: 0 <= i < |blocks| ==> blocks[i].number == head.value.number + 1 + i
    ensures blocks != [] ==> IsTop(calls + CallsFor(blocks, table), Some(blocks[|blocks| - 1]), [])
  {
  }

  /** On a fixed chain all blocks up to its end can be fetched. */
  lemma ForwardsOnFixedChain(node: Node, t: nat, chain: Hash, from: int, n: int, blocks: seq<Block>)
    requires node.WellFormed() && FixedTo(node, t, chain) && 0 <= from && from + n - 1 <= node.tree[chain].number
    requires FollowsCanonical(node, t, from, n, blocks)
    ensures |blocks| == Max(0, n)
  {
    hide AncestorAt, FixedTo;
    if |blocks| < n {
      ExistsOnFixedChain(node, t, t + |blocks|, chain, from + |blocks|);
    }
  }

  lemma ExistsOnFixedChain(node: Node, t: nat, u: nat, chain: Hash, n: int)
    requires node.WellFormed() && FixedTo(node, t, chain) && t <= u && 0 <= n <= node.tree[chain].number
    ensures node.CanonicalAt(u, n).Some?
  {
    hide AncestorAt;
  }

  /** On a chain all blocks from the initial one to the head have been delivered. */
  lemma DeliveredUpToHead(
      tree: map<Hash, Block>, table: map<Hash, Block>, before: seq<Call>, calls: seq<Call>, head: Option<Block>,
      initial: int, chain: Hash)
    requires IsTree(tree) && chain in tree && InSync(tree, table, before, head, initial) && head.Some?
    requires OnChain(tree, chain, Delivered(before)) && before <= calls
    ensures forall n :: initial <= n <= head.value.number ==>
                          && AncestorAt(tree, chain, n).Some?
                          && AncestorAt(tree, chain, n).value in Delivered(calls)
  {
    hide AncestorAt, IsTree, OnChain, InSync;
    HeadOnChain(tree, table, before, head, initial, chain);
    DeliveredOnChain(tree, table, before, head, initial, chain);
    forall n | initial <= n <= head.value.number
      ensures AncestorAt(tree, chain, n).Some? && AncestorAt(tree, chain, n).value in Delivered(calls)
    {
      var i := n - initial;
      assert AncestorAt(tree, chain, initial + i) == Some(Delivered(before)[i]);
      assert Delivered(calls)[i] == Delivered(before)[i];
    }
  }

  lemma DeepBlockStays(node: Node, depth: nat, t: nat, u: nat, n: int)
    requires node.WellFormed() && NotReplaced(node, depth) && t <= u && 0 < n <= Max(node.TipAt(t).number - depth, 0)
    ensures node.CanonicalAt(u, n) == node.CanonicalAt(t, n) && node.CanonicalAt(t, n).Some?
  {
    hide AncestorAt;
  }

  /**
   * The head itself need not be on the canonical chain for a forward sync to succeed: after two blocks
   * of the same number were stored one after the other, the first may be canonical again.
   */
  lemma SiblingOfHeadMayBeStored(g: Block, a: Block, b: Block) returns (table: map<Hash, Block>, calls: seq<Call>)
    requires g.number == 0 && a.number == 1 && b.number == 1
    requires g.hash != a.hash && g.hash != b.hash && a.hash != b.hash
    requires a.parentHash == g.hash && b.parentHash == g.hash && g.parentHash !in {g.hash, a.hash, b.hash}
    ensures var tree := map[g.hash := g, a.hash := a, b.hash := b];
            && IsTree(tree) && InSync(tree, table, calls, Some(b), 0) && IsTop(calls, Some(b), [])
            && AncestorAt(tree, a.hash, b.number) == Some(a) && a.hash in table
  {
    var tree := map[g.hash := g, a.hash := a, b.hash := b];
    table, calls := map[], [];
    NothingIsInSync(tree);
    hide InSync;
    table, calls := AddOne(tree, table, calls, None, 0, g);
    table, calls := AddOne(tree, table, calls, Some(g), 0, a);
    table, calls := AddOne(tree, table, calls, Some(a), 0, b);
  }

  lemma NothingIsInSync(tree: map<Hash, Block>)
    ensures InSync(tree, map[], [], None, 0)
  {
  }

  lemma AddOne(
      tree: map<Hash, Block>, table: map<Hash, Block>, calls: seq<Call>, head: Option<Block>, initial: int, b: Block)
    returns (table': map<Hash, Block>, calls': seq<Call>)
    requires IsTree(tree) && b.hash in tree && tree[b.hash] == b && InSync(tree, table, calls, head, initial)
    requires b.hash !in table && if table == map[] then b.number == initial else b.parentHash in table
    ensures table' == table[b.hash := b] && calls' == calls + [Call(b, table')]
    ensures InSync(tree, table', calls', Some(b), initial)
  {
    hide InSync, IsTree;
    table', calls' := table[b.hash := b], calls + [Call(b, table[b.hash := b])];
    assert [b][..0] == [];
    assert Filed(table, [b]) == table';
    assert CallsFor([b], table') == [Call(b, table')];
    InsertKeepsSync(tree, table, calls, head, initial, [b]);
  }

  lemma CallsStayWithin(before: seq<Call>, after: seq<Call>, cap: Option<int>)
    requires before <= after && before != []
    ensures CallsAtMost(before, 1, cap) && CallsAtMost(after, |before|, cap) ==> CallsAtMost(after, 1, cap)
  {
  }

  /** A capped target is numbered by the cap, so nothing delivered lies above a branch that starts there. */
  lemma BranchKeepsTop(
      node: Node, t: nat, table: map<Hash, Block>, calls: seq<Call>, head: Option<Block>, initial: int,
      before: seq<Block>, after: seq<Block>, cap: Option<int>)
    requires node.WellFormed() && InSync(node.tree, table, calls, head, initial) &&
             Linked(node.tree, table, after, initial)
    requires IsTop(calls, head, before) && CallsAtMost(calls, 1, cap) && cap.Some? && before <= after
    requires before == [] && after != [] ==> TargetAt(node, t, cap) == Some(after[0])
    ensures IsTop(calls, head, after)
  {
    hide IsTree, AncestorAt, Logged, Stored, FromTree, NoneStored, Descends;
    if before == [] && after != [] {
      assert after[0] in after;
      assert calls != [] ==> Delivered(calls)[0] == calls[0].block;
    }
  }

  /** The first block of a branch is its highest one. */
  lemma BranchHeadIsTop(
      tree: map<Hash, Block>, table: map<Hash, Block>, calls: seq<Call>, head: Option<Block>, initial: int,
      branch: seq<Block>)
    requires IsTree(tree) && Linked(tree, table, branch, initial) && branch != []
    ensures IsTop(calls, head, branch) ==>
              forall t :: IsTop(calls + CallsFor(Reversed(branch), t), Some(branch[0]), [])
  {
    forall i | 0 <= i < |branch|
      ensures branch[i].number <= branch[0].number
    {
      BranchNumbersFall(tree, branch, 0, i);
    }
  }

  /** If deep blocks are not replaced, blocks fetched one after the other up to that depth form a chain. */
  lemma DeepBlocksConnect(node: Node, depth: nat, t: nat, from: nat, n: int, blocks: seq<Block>)
    requires node.WellFormed() && NotReplaced(node, depth) && 0 < from
    requires from + n - 1 <= Max(node.TipAt(t).number - depth, 0)
    requires FollowsCanonical(node, t + 1, from, n, blocks)
    ensures IsBranch(blocks) && |blocks| == Max(0, n)
    ensures blocks != [] ==> node.CanonicalAt(t, from - 1).Some?
    ensures blocks != [] ==> node.CanonicalAt(t, from - 1).value.hash == blocks[0].parentHash
    ensures blocks != [] ==> blocks[0].number == from
  {
    hide AncestorAt, IsTree, IsBranch, NotReplaced;
    forall i | 0 <= i < |blocks|
      ensures AncestorAt(node.tree, node.tip(t), from + i) == Some(blocks[i])
    {
      DeepBlockStays(node, depth, t, t + 1 + i, from + i);
    }
    if |blocks| < n {
      DeepBlockStays(node, depth, t, t + 1 + |blocks|, from + |blocks|);
    }
    assert ChainBlocks(node.tree, node.tip(t), from, blocks);
    ChainBlocksConnect(node.tree, node.tip(t), from, blocks);
    if blocks != [] {
      assert node.CanonicalAt(t, from + 0) == Some(blocks[0]);
      ParentOnChain(node.tree, node.tip(t), from);
    }
  }

  lemma NoBound(blocks: seq<Block>)
    ensures AtMost(blocks, None)
  {
  }

  lemma EmptyMeansNothing(
      tree: map<Hash, Block>, table: map<Hash, Block>, calls: seq<Call>, head: Option<Block>, initial: int,
      branch: seq<Block>)
    requires InSync(tree, table, calls, head, initial) && InProgress(tree, table, branch, initial)
    ensures table == map[] ==> calls == [] && branch == [] && |table| == 0
    ensures table != map[] ==> calls != []
  {
    StoredIsEmpty(table, Delivered(calls));
  }

  /** The number of the last block to fetch. */
  ghost function TopNumber(node: Node, chain: Hash, cap: Option<int>): int
    requires chain in node.tree
  {
    if cap.Some? then cap.value else node.tree[chain].number
  }

  /** The chain's blocks numbered from `from` to `to`, in order. */
  ghost predicate DeliversChain(tree: map<Hash, Block>, chain: Hash, from: int, to: int, blocks: seq<Block>) {
    && IsTree(tree) && chain in tree
    && |blocks| == to - from + 1
    && (forall i :: 0 <= i < |blocks| ==> AncestorAt(tree, chain, from + i) == Some(blocks[i]))
  }

  lemma DeliversMeans(tree: map<Hash, Block>, chain: Hash, from: int, to: int, calls: seq<Call>)
    requires DeliversChain(tree, chain, from, to, Delivered(calls))
    ensures IsTree(tree) && chain in tree && |calls| == to - from + 1
    ensures forall i :: 0 <= i < |calls| ==> AncestorAt(tree, chain, from + i) == Some(calls[i].block)
  {
    hide AncestorAt, IsTree;
    forall i | 0 <= i < |calls|
      ensures AncestorAt(tree, chain, from + i) == Some(calls[i].block)
    {
      assert Delivered(calls)[i] == calls[i].block;
    }
  }

  lemma NothingOnChain(node: Node, chain: Hash, calls: seq<Call>)
    requires node.WellFormed()
    ensures chain in node.tree && calls == [] ==>
            OnChain(node.tree, chain, Delivered(calls)) && OnChain(node.tree, chain, [])
  {
  }

  lemma CallsStayAtMost(before: seq<Call>, after: seq<Call>, cap: Option<int>)
    requires before <= after && CallsAtMost(before, 1, cap) && CallsAtMost(after, Max(1, |before|), cap)
    ensures CallsAtMost(after, 1, cap)
  {
  }

  /** On a chain the head lies between the initial block and the last one to fetch. */
  lemma HeadWithinTop(
      node: Node, table: map<Hash, Block>, calls: seq<Call>, head: Option<Block>, initial: int, chain: Hash,
      cap: Option<int>)
    requires node.WellFormed() && InSync(node.tree, table, calls, head, initial) && table != map[]
    requires chain in node.tree && OnChain(node.tree, chain, Delivered(calls))
    requires CallsAtMost(calls, 1, cap) && CapOnChain(node.tree, chain, cap, initial)
    ensures initial + |calls| - 1 <= TopNumber(node, chain, cap)
  {
    hide AncestorAt, IsTree, OnChain;
    HeadIsStored(node.tree, table, calls, head, initial);
    HeadOnChain(node.tree, table, calls, head, initial, chain);
  }

  /** Once the target is stored, the whole chain up to it has been delivered and nothing else. */
  lemma ChainIsDelivered(
      node: Node, asked: nat, table: map<Hash, Block>, calls: seq<Call>, head: Option<Block>, initial: int,
      chain: Hash, cap: Option<int>)
    requires node.WellFormed() && InSync(node.tree, table, calls, head, initial)
    requires chain in node.tree && OnChain(node.tree, chain, Delivered(calls)) && node.tip(asked) == chain
    requires CallsAtMost(calls, 1, cap) && CapOnChain(node.tree, chain, cap, initial)
    requires TargetAt(node, asked, cap).Some? && TargetAt(node, asked, cap).value.hash in table
    ensures DeliversChain(node.tree, chain, initial, TopNumber(node, chain, cap), Delivered(calls))
  {
    hide AncestorAt, IsTree, OnChain, CallsAtMost, CapOnChain, InSync;
    InitialIsNatural(node.tree, table, calls, head, initial);
    TargetOnChain(node, asked, cap, chain, initial);
    var target := TargetAt(node, asked, cap).value;
    assert target.number == TopNumber(node, chain, cap);
    HeadIsStored(node.tree, table, calls, head, initial);
    HeadOnChain(node.tree, table, calls, head, initial, chain);
    StoredIsBelowHead(node.tree, table, calls, head, initial, chain, target.hash);
    HeadWithinTop(node, table, calls, head, initial, chain, cap);
    DeliveredOnChain(node.tree, table, calls, head, initial, chain);
  }

  lemma DeliveredOnChain(tree: map<Hash, Block>, table: map<Hash, Block>, calls: seq<Call>, head: Option<Block>,
      initial: int, chain: Hash)
    requires IsTree(tree) && chain in tree && InSync(tree, table, calls, head, initial) &&
             OnChain(tree, chain, Delivered(calls))
    ensures forall i :: 0 <= i < |calls| ==> AncestorAt(tree, chain, initial + i) == Some(Delivered(calls)[i])
  {
    hide AncestorAt, IsTree, FromTree, Rooted, HashesDiffer, Logged, Stored;
    StoredDiffer(table, Delivered(calls));
    forall i | 0 <= i < |calls|
      ensures AncestorAt(tree, chain, initial + i) == Some(Delivered(calls)[i])
    {
      ChainDeliveredInOrder(tree, chain, Delivered(calls), initial, i);
      assert Delivered(calls)[i] in Delivered(calls);
    }
  }

  /** Stored blocks and the branch in progress together are no more than the blocks to fetch. */
  lemma ChainBound(
      node: Node, table: map<Hash, Block>, calls: seq<Call>, head: Option<Block>, initial: int, branch: seq<Block>,
      chain: Hash, cap: Option<int>)
    requires node.WellFormed() && InSync(node.tree, table, calls, head, initial) &&
             InProgress(node.tree, table, branch, initial)
    requires table != map[]
    requires chain in node.tree && OnChain(node.tree, chain, Delivered(calls)) && OnChain(node.tree, chain, branch)
    requires AtMost(branch, cap) && CallsAtMost(calls, 1, cap) && CapOnChain(node.tree, chain, cap, initial)
    ensures |table| + |branch| <= TopNumber(node, chain, cap) - initial + 1
  {
    hide AncestorAt, IsTree, CallsAtMost, CapOnChain;
    TableSize(node.tree, table, calls, head, initial);
    HeadWithinTop(node, table, calls, head, initial, chain, cap);
    if branch != [] {
      DeliveredOnChain(node.tree, table, calls, head, initial, chain);
      var first, last := branch[0], branch[|branch| - 1];
      assert first in branch && last in branch;
      BranchNumbersFall(node.tree, branch, 0, |branch| - 1);
      assert initial + |calls| - 1 < last.number by {
        UnstoredIsAbove(node.tree, table, calls, initial, chain, last);
      }
    }
  }

  lemma StoredOnNumber(tree: map<Hash, Block>, table: map<Hash, Block>, calls: seq<Call>, initial: int, chain: Hash,
      i: nat)
    requires IsTree(tree) && chain in tree && Stored(table, Delivered(calls)) && i < |calls|
    requires AncestorAt(tree, chain, initial + i) == Some(Delivered(calls)[i])
    ensures AncestorAt(tree, chain, initial + i).value.hash in table
  {
    hide AncestorAt, IsTree, HashesDiffer;
    assert Delivered(calls)[i] in Delivered(calls);
  }

  lemma UnstoredIsAbove(tree: map<Hash, Block>, table: map<Hash, Block>, calls: seq<Call>, initial: int, chain: Hash,
      b: Block)
    requires IsTree(tree) && chain in tree && AncestorAt(tree, chain, b.number) == Some(b) && initial <= b.number
    requires b.hash !in table && Stored(table, Delivered(calls))
    requires forall i :: 0 <= i < |calls| ==> AncestorAt(tree, chain, initial + i) == Some(Delivered(calls)[i])
    ensures initial + |calls| - 1 < b.number
  {
    hide AncestorAt, IsTree, HashesDiffer;
    if b.number <= initial + |calls| - 1 {
      StoredOnNumber(tree, table, calls, initial, chain, b.number - initial);
      assert false;
    }
  }

  lemma TableSize(tree: map<Hash, Block>, table: map<Hash, Block>, calls: seq<Call>, head: Option<Block>, initial: int)
    requires InSync(tree, table, calls, head, initial)
    ensures |table| == |calls|
  {
  }

  lemma LowerCap(blocks: seq<Block>, low: int, cap: Option<int>)
    requires AtMost(blocks, Some(low)) && (cap.Some? ==> low <= cap.value)
    ensures AtMost(blocks, cap)
  {
  }

  lemma CallsAreAtMost(a: seq<Call>, b: seq<Call>, c: seq<Call>, cap: Option<int>)
    requires a <= b <= c
    requires AtMost(Delivered(b)[|a|..], cap) && AtMost(Delivered(c)[|b|..], cap)
    ensures CallsAtMost(c, |a|, cap)
  {
  }

  /** A completed branch, turned around, can always be stored; none of its blocks is known already. */
  lemma BranchIsInsertable(
      tree: map<Hash, Block>, table: map<Hash, Block>, calls: seq<Call>, head: Option<Block>, initial: int,
      branch: seq<Block>,
      cap: Option<int>, chain: Hash)
    requires IsTree(tree) && InSync(tree, table, calls, head, initial)
    requires Linked(tree, table, branch, initial) && AtMost(branch, cap)
    requires branch != [] && branch[|branch| - 1].parentHash in table
    ensures Insertable(table, Reversed(branch), initial) && FromTree(tree, Reversed(branch))
    ensures initial < Reversed(branch)[0].number
    ensures AtMost(Reversed(branch), cap)
    ensures chain in tree && OnChain(tree, chain, branch) ==> OnChain(tree, chain, Reversed(branch))
  {
    ReversedIsBranch(tree, table, branch);
    ReversedHasSame(branch);
    var last := branch[|branch| - 1];
    StoredAtLeastInitial(tree, table, calls, head, initial, last.parentHash);
    hide InSync, HashesDiffer, NoneStored, IsBranch, AncestorAt, Descends;
    assert last in branch;
    assert Reversed(branch)[0] == last;
  }

  lemma ReversedHasSame(blocks: seq<Block>)
    ensures forall b :: b in Reversed(blocks) <==> b in blocks
  {
    forall b | b in blocks
      ensures b in Reversed(blocks)
    {
      var i :| 0 <= i < |blocks| && blocks[i] == b;
      assert Reversed(blocks)[|blocks| - 1 - i] == b;
    }
  }

  lemma StoredAtLeastInitial(tree: map<Hash, Block>, table: map<Hash, Block>, calls: seq<Call>, head: Option<Block>,
      initial: int, h: Hash)
    requires InSync(tree, table, calls, head, initial) && h in table
    ensures h in tree && tree[h] == table[h] && initial <= tree[h].number
  {
    hide HashesDiffer, Logged;
    var d := Delivered(calls);
    assert table[h] in d;
    var i :| 0 <= i < |d| && d[i] == table[h];
  }

  /** On a single chain the parent of an unstored block can be fetched: the initial block is stored. */
  lemma ParentCanBeFetched(
      tree: map<Hash, Block>, table: map<Hash, Block>, calls: seq<Call>, head: Option<Block>, initial: int,
      chain: Hash, branch: seq<Block>)
    requires IsTree(tree) && chain in tree && InSync(tree, table, calls, head, initial) && table != map[]
    requires branch != [] && Linked(tree, table, branch, initial)
    requires OnChain(tree, chain, Delivered(calls)) && OnChain(tree, chain, branch)
    ensures var h := branch[|branch| - 1].parentHash;
            && h in tree && initial <= tree[h].number
            && OnChain(tree, chain, branch + [tree[h]])
  {
    hide IsTree, AncestorAt, HashesDiffer, Logged, Descends;
    var last := branch[|branch| - 1];
    assert last in branch;
    StoredIsEmpty(table, Delivered(calls));
    var root := Delivered(calls)[0];
    assert root in Delivered(calls);
    assert last.number != initial;
    ParentOnChain(tree, chain, last.number);
  }

  lemma FixedTip(node: Node, t: nat, now: nat, chain: Hash)
    requires node.WellFormed() && t <= now
    ensures FixedTo(node, t, chain) ==> chain in node.tree && node.tip(now) == chain && FixedTo(node, now, chain)
  {
  }

  lemma OnChainWithMore(tree: map<Hash, Block>, chain: Hash, some: seq<Block>, more: seq<Block>)
    requires IsTree(tree) && chain in tree && OnChain(tree, chain, some)
    ensures OnChain(tree, chain, [])
    ensures OnChain(tree, chain, more) ==> OnChain(tree, chain, some + more)
  {
    hide AncestorAt, IsTree;
  }

  /** The head is stored, and only blocks above the initial one come after it. */
  lemma HeadIsStored(tree: map<Hash, Block>, table: map<Hash, Block>, calls: seq<Call>, head: Option<Block>,
      initial: int)
    requires InSync(tree, table, calls, head, initial)
    ensures head.Some? <==> table != map[]
    ensures head.Some? ==>
              && head.value.hash in table && table[head.value.hash] == head.value
              && 0 <= initial <= head.value.number
  {
    hide HashesDiffer, Logged;
    StoredIsEmpty(table, Delivered(calls));
    if calls != [] {
      assert Delivered(calls)[|calls| - 1] in Delivered(calls);
    }
  }

  /** On a fixed chain the blocks right above the head can always be stored. */
  lemma ChainIsInsertable(
      tree: map<Hash, Block>, table: map<Hash, Block>, calls: seq<Call>, head: Option<Block>, initial: int,
      chain: Hash, blocks: seq<Block>)
    requires IsTree(tree) && chain in tree && InSync(tree, table, calls, head, initial) && head.Some?
    requires OnChain(tree, chain, Delivered(calls))
    requires ChainBlocks(tree, chain, head.value.number + 1, blocks)
    ensures blocks != [] ==> Insertable(table, blocks, initial)
    ensures OnChain(tree, chain, blocks)
  {
    hide InSync, HashesDiffer, NoneStored, AncestorAt, OnChain, IsTree;
    HeadIsStored(tree, table, calls, head, initial);
    HeadOnChain(tree, table, calls, head, initial, chain);
    AboveHeadIsNew(tree, table, calls, head, initial, chain, blocks);
    ChainBlocksConnect(tree, chain, head.value.number + 1, blocks);
    if blocks != [] {
      assert AncestorAt(tree, chain, head.value.number + 1 + 0) == Some(blocks[0]);
      ParentOnChain(tree, chain, head.value.number + 1);
    }
  }

  lemma ChainBlocksConnect(tree: map<Hash, Block>, chain: Hash, from: nat, blocks: seq<Block>)
    requires ChainBlocks(tree, chain, from, blocks)
    ensures IsBranch(blocks) && OnChain(tree, chain, blocks)
  {
    hide AncestorAt, IsTree;
    forall i | 0 <= i < |blocks| - 1
      ensures blocks[i + 1].parentHash == blocks[i].hash
    {
      assert AncestorAt(tree, chain, from + (i + 1)) == Some(blocks[i + 1]);
      ParentOnChain(tree, chain, from + i + 1);
    }
    forall b | b in blocks
      ensures AncestorAt(tree, chain, b.number) == Some(b)
    {
      var i :| 0 <= i < |blocks| && blocks[i] == b;
      assert AncestorAt(tree, chain, from + i) == Some(b);
    }
  }

  lemma StoredDiffer(table: map<Hash, Block>, delivered: seq<Block>)
    requires Stored(table, delivered)
    ensures HashesDiffer(delivered)
  {
  }

  lemma HeadOnChain(tree: map<Hash, Block>, table: map<Hash, Block>, calls: seq<Call>, head: Option<Block>,
      initial: int, chain: Hash)
    requires IsTree(tree) && chain in tree && InSync(tree, table, calls, head, initial) && head.Some?
    requires OnChain(tree, chain, Delivered(calls))
    ensures AncestorAt(tree, chain, head.value.number) == head
    ensures head.value.number == initial + |calls| - 1
  {
    hide Logged, FromTree, Rooted, AncestorAt, IsTree, Stored, HashesDiffer, OnChain;
    StoredDiffer(table, Delivered(calls));
    LastOnChain(tree, chain, Delivered(calls), initial);
  }

  lemma LastOnChain(tree: map<Hash, Block>, chain: Hash, delivered: seq<Block>, initial: int)
    requires IsTree(tree) && chain in tree && FromTree(tree, delivered) && OnChain(tree, chain, delivered)
    requires HashesDiffer(delivered) && Rooted(delivered, initial) && delivered != []
    ensures var last := delivered[|delivered| - 1];
            && AncestorAt(tree, chain, last.number) == Some(last)
            && last.number == initial + |delivered| - 1
  {
    hide AncestorAt, IsTree, FromTree, HashesDiffer, Rooted, OnChain;
    ChainDeliveredInOrder(tree, chain, delivered, initial, |delivered| - 1);
    OnChainAt(tree, chain, delivered, |delivered| - 1);
  }

  lemma OnChainAt(tree: map<Hash, Block>, chain: Hash, blocks: seq<Block>, i: nat)
    requires IsTree(tree) && chain in tree && OnChain(tree, chain, blocks) && i < |blocks|
    ensures AncestorAt(tree, chain, blocks[i].number) == Some(blocks[i])
  {
    hide AncestorAt, IsTree;
    assert blocks[i] in blocks;
  }

  lemma AboveHeadIsNew(
      tree: map<Hash, Block>, table: map<Hash, Block>, calls: seq<Call>, head: Option<Block>, initial: int,
      chain: Hash, blocks: seq<Block>)
    requires IsTree(tree) && chain in tree && InSync(tree, table, calls, head, initial) && head.Some?
    requires OnChain(tree, chain, Delivered(calls))
    requires ChainBlocks(tree, chain, head.value.number + 1, blocks)
    ensures HashesDiffer(blocks) && NoneStored(table, blocks)
  {
    hide InSync, AncestorAt, IsTree;
    HeadOnChain(tree, table, calls, head, initial, chain);
    forall i | 0 <= i < |blocks|
      ensures blocks[i].hash !in table && blocks[i].number == head.value.number + 1 + i &&
              tree[blocks[i].hash] == blocks[i]
    {
      assert AncestorAt(tree, chain, head.value.number + 1 + i) == Some(blocks[i]);
      if blocks[i].hash in table {
        StoredIsBelowHead(tree, table, calls, head, initial, chain, blocks[i].hash);
      }
    }
  }

  lemma StoredIsBelowHead(
      tree: map<Hash, Block>, table: map<Hash, Block>, calls: seq<Call>, head: Option<Block>, initial: int,
      chain: Hash, h: Hash)
    requires IsTree(tree) && chain in tree && InSync(tree, table, calls, head, initial) && head.Some?
    requires OnChain(tree, chain, Delivered(calls)) && h in table
    ensures h in tree && tree[h] == table[h] && initial <= table[h].number <= head.value.number
  {
    hide Logged, HashesDiffer, Rooted;
    var d := Delivered(calls);
    HeadOnChain(tree, table, calls, head, initial, chain);
    assert table[h] in d;
    var i :| 0 <= i < |d| && d[i] == table[h];
    ChainDeliveredInOrder(tree, chain, d, initial, i);
  }

  lemma InitialIsNatural(tree: map<Hash, Block>, table: map<Hash, Block>, calls: seq<Call>, head: Option<Block>,
      initial: int)
    requires InSync(tree, table, calls, head, initial)
    ensures 0 <= initial
  {
  }

  lemma NoBlocks(table: map<Hash, Block>)
    ensures IsBranch([]) && HashesDiffer([]) && NoneStored(table, [])
  {
  }

  lemma SingleBranch(blocks: seq<Block>, table: map<Hash, Block>)
    ensures |blocks| == 1 ==> IsBranch(blocks) && HashesDiffer(blocks)
    ensures table == map[] ==> NoneStored(table, blocks)
  {
  }
}
