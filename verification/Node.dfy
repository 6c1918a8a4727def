/** The blockchain node the monitor talks to: a fixed block tree whose canonical chain may change between calls. */
module Node {
  import opened Basics

  /** One entry of a validator contract: the validators in charge from a height on. */
  datatype ContractEpoch = ContractEpoch(height: int, validators: seq<Address>)

  /** Blocks are filed under their hash; all but the genesis have a parent numbered one less. */
  ghost predicate IsTree(tree: map<Hash, Block>) {
    forall h :: h in tree ==>
                  && tree[h].hash == h
                  && (tree[h].number == 0 ==> tree[h].parentHash !in tree)
                  && (tree[h].number > 0 ==>
                        tree[h].parentHash in tree && tree[tree[h].parentHash].number == tree[h].number - 1)
  }

  /** The block numbered `n` on the chain that ends in block `h`. */
  function AncestorAt(tree: map<Hash, Block>, h: Hash, n: int): (r: Option<Block>)
    requires IsTree(tree) && h in tree
    ensures r.Some? <==> 0 <= n <= tree[h].number
    ensures r.Some? ==> r.value.number == n && r.value.hash in tree && tree[r.value.hash] == r.value
    decreases tree[h].number
  {
    if n < 0 || tree[h].number < n then None
    else if n == tree[h].number then Some(tree[h])
    else AncestorAt(tree, tree[h].parentHash, n)
  }

  /** A chain ends in its last block, and the parent of a chain's block is the chain's block numbered one less. */
  lemma {:induction false} ParentOnChain(tree: map<Hash, Block>, h: Hash, n: nat)
    requires IsTree(tree) && h in tree && 0 < n <= tree[h].number
    ensures AncestorAt(tree, h, tree[h].number) == Some(tree[h])
    ensures AncestorAt(tree, h, n - 1).value.hash == AncestorAt(tree, h, n).value.parentHash
    decreases tree[h].number
  {
    if n < tree[h].number {
      ParentOnChain(tree, tree[h].parentHash, n);
    }
  }

  /**
   * Block numbers never shrink; contracts list increasing heights and only grow; and whatever they
   * list later starts above the block that was current before.
   */
  ghost predicate Progresses(node: Node)
    requires node.WellFormed()
  {
    && (forall s, t :: 0 <= s <= t ==> node.TipAt(s).number <= node.TipAt(t).number)
    && (forall s, t, c :: 0 <= s <= t ==> node.visible(s, c) <= node.visible(t, c))
    && (forall c, i, j :: 0 <= i < j < |node.Log(c)| ==> node.Log(c)[i].height < node.Log(c)[j].height)
    && (forall t: nat, c, i :: node.visible(t, c) <= i < |node.Log(c)| ==> node.TipAt(t).number < node.Log(c)[i].height)
  }

  class Node {
    const tree: map<Hash, Block>                       // every block of every fork
    const tip: nat -> Hash                             // head of the canonical chain at each call
    const contracts: map<Address, seq<ContractEpoch>>  // all each contract will ever list
    const visible: (nat, Address) -> nat               // how much of it is listed at each call
    const selected: nat -> Option<Hash>                // the configured initial block, resolved at each call
    var clock: nat                                     // number of calls so far

    constructor (tree: map<Hash, Block>, tip: nat -> Hash, contracts: map<Address, seq<ContractEpoch>>,
                 visible: (nat, Address) -> nat, selected: nat -> Option<Hash>)
      ensures this.tree == tree && this.tip == tip && this.contracts == contracts
      ensures this.visible == visible && this.selected == selected && clock == 0
    {
      this.tree, this.tip, this.contracts, this.visible, this.selected := tree, tip, contracts, visible, selected;
      clock := 0;
    }

    ghost predicate WellFormed() {
      && IsTree(tree)
      && (forall t: nat :: tip(t) in tree)
      && (forall t: nat :: selected(t).Some? ==> selected(t).value in tree)
      && (forall t: nat, c: Address :: visible(t, c) <= |Log(c)|)
    }

    function Log(contract: Address): seq<ContractEpoch> {
      if contract in contracts then contracts[contract] else []
    }

    function TipAt(t: nat): Block
      requires WellFormed()
    {
      tree[tip(t)]
    }

    /** The canonical block numbered `n` as seen by call `t`. */
    function CanonicalAt(t: nat, n: int): Option<Block>
      requires WellFormed()
    {
      AncestorAt(tree, tip(t), n)
    }

    method BlockNumber() returns (n: nat)
      requires WellFormed()
      modifies this
      ensures n == TipAt(old(clock)).number && clock == old(clock) + 1
    {
      n := tree[tip(clock)].number;
      clock := clock + 1;
    }

    method LatestBlock() returns (b: Block)
      requires WellFormed()
      modifies this
      ensures b == TipAt(old(clock)) && clock == old(clock) + 1
    {
      b := tree[tip(clock)];
      clock := clock + 1;
    }

    method BlockByNumber(n: int) returns (b: Option<Block>)
      requires WellFormed()
      modifies this
      ensures b == CanonicalAt(old(clock), n) && clock == old(clock) + 1
    {
      b := AncestorAt(tree, tip(clock), n);
      clock := clock + 1;
    }

    method BlockByHash(h: Hash) returns (b: Option<Block>)
      modifies this
      ensures b == (if h in tree then Some(tree[h]) else None) && clock == old(clock) + 1
    {
      b := if h in tree then Some(tree[h]) else None;
      clock := clock + 1;
    }

    method ContractEpochs(contract: Address) returns (epochs: seq<ContractEpoch>)
      requires WellFormed()
      modifies this
      ensures epochs == Log(contract)[..visible(old(clock), contract)] && clock == old(clock) + 1
    {
      epochs := Log(contract)[..visible(clock, contract)];
      clock := clock + 1;
    }

    method InitialBlock() returns (b: Option<Block>)
      requires WellFormed()
      modifies this
      ensures b == (if selected(old(clock)).Some? then Some(tree[selected(old(clock)).value]) else None)
      ensures clock == old(clock) + 1
    {
      b := if selected(clock).Some? then Some(tree[selected(clock).value]) else None;
      clock := clock + 1;
    }
  }
}
