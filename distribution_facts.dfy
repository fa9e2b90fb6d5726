/** What a deposit guarantees: exact accounting of every pass, which entries
    a pass leaves alone, capacity respected by the ordinary passes and not by
    the overflow, and when the flex loop has run to its own exit condition. */
module DistributionFacts {
  import opened Accounts
  import opened Distribution

  // ---------------------------------------------------------------------
  // Conservation: money placed plus money left in the pool plus money
  // dropped by nested branches is exactly what came in.

  lemma {:induction false} DepositConserves(a: Account, amount: real, fuel: nat)
    ensures Balance(Deposited(a, amount, fuel).account) + Deposited(a, amount, fuel).dropped
         == Balance(a) + amount
    decreases Size(a), 0, 0
  {
    match a.data
    case Leaf(_, _) =>
    case Branch(cs) =>
      SizeOfBranch(a);
      var f := FixedPass(cs, amount, fuel);
      FixedPassConserves(cs, amount, fuel);
      SameShapeAllSize(cs, f.entries);
      var x := FlexLoop(f.entries, f.pool, fuel, fuel);
      FlexLoopConserves(f.entries, f.pool, fuel, fuel);
      SameShapeAllSize(f.entries, x.entries);
      OverflowConserves(x.entries, x.pool, fuel);
      DepositedBranch(a, amount, fuel);
  }

  lemma {:induction false} FixedStepConserves(e: BranchEntry, available: real, fuel: nat)
    ensures var t := FixedStep(e, available, fuel);
            Balance(t.entry.account) + t.pool + t.dropped == Balance(e.account) + available
    decreases Size(e.account), 1, 0
  {
    if e.inflow.Fixed? {
      DepositConserves(e.account, FixedTake(e, available), fuel);
    }
  }

  lemma {:induction false} FlexStepConserves(e: BranchEntry, available: real, perFlex: real, fuel: nat)
    ensures var t := FlexStep(e, available, perFlex, fuel);
            Balance(t.entry.account) + t.pool + t.dropped == Balance(e.account) + available
    decreases Size(e.account), 1, 0
  {
    if e.inflow.Flex? {
      DepositConserves(e.account, FlexTake(e, available, perFlex), fuel);
    }
  }

  lemma {:induction false} FixedPassConserves(cs: seq<BranchEntry>, pool: real, fuel: nat)
    ensures var s := FixedPass(cs, pool, fuel);
            ChildrenBalance(s.entries) + s.pool + s.dropped == ChildrenBalance(cs) + pool
    decreases SizeAll(cs), 2, 0
  {
    if |cs| > 0 {
      SizeAllLast(cs);
      var n := |cs| - 1;
      var s := FixedPass(cs[..n], pool, fuel);
      FixedPassConserves(cs[..n], pool, fuel);
      var t := FixedStep(cs[n], s.pool, fuel);
      FixedStepConserves(cs[n], s.pool, fuel);
      ChildrenBalanceSnoc(s.entries, t.entry);
    }
  }

  lemma {:induction false} FlexPassConserves(cs: seq<BranchEntry>, pool: real, perFlex: real, fuel: nat)
    ensures var s := FlexPass(cs, pool, perFlex, fuel);
            ChildrenBalance(s.entries) + s.pool + s.dropped == ChildrenBalance(cs) + pool
    decreases SizeAll(cs), 2, 0
  {
    if |cs| > 0 {
      SizeAllLast(cs);
      var n := |cs| - 1;
      var s := FlexPass(cs[..n], pool, perFlex, fuel);
      FlexPassConserves(cs[..n], pool, perFlex, fuel);
      var t := FlexStep(cs[n], s.pool, perFlex, fuel);
      FlexStepConserves(cs[n], s.pool, perFlex, fuel);
      ChildrenBalanceSnoc(s.entries, t.entry);
    }
  }

  lemma {:induction false} FlexLoopConserves(cs: seq<BranchEntry>, pool: real, fuel: nat, rounds: nat)
    ensures var s := FlexLoop(cs, pool, fuel, rounds);
            ChildrenBalance(s.entries) + s.pool + s.dropped == ChildrenBalance(cs) + pool
    decreases SizeAll(cs), 3, rounds
  {
    if rounds > 0 && FlexLive(cs, pool) {
      var s := FlexPass(cs, pool, pool / TotalFlex(cs), fuel);
      FlexPassConserves(cs, pool, pool / TotalFlex(cs), fuel);
      SameShapeAllSize(cs, s.entries);
      FlexLoopConserves(s.entries, s.pool, fuel, rounds - 1);
    }
  }

  lemma {:induction false} OverflowConserves(cs: seq<BranchEntry>, pool: real, fuel: nat)
    ensures var s := Overflow(cs, pool, fuel);
            ChildrenBalance(s.entries) + s.pool + s.dropped == ChildrenBalance(cs) + pool
    decreases SizeAll(cs), 3, 0
  {
    if |cs| > 0 {
      var share := pool / (|cs| as real);
      if share > Residue {
        ShareConserves(cs, share, fuel);
        SharesAddUp(|cs|, pool);
      }
    }
  }

  /** `n` shares of `share` each. */
  function Times(n: nat, share: real): real
  {
    if n == 0 then 0.0 else Times(n - 1, share) + share
  }

  /** Splitting `pool` into `n` equal shares and paying every one of them
      out pays out `pool`. */
  lemma {:induction false} SharesAddUp(n: nat, pool: real)
    requires n > 0
    ensures Times(n, pool / (n as real)) == pool
  {
    TimesIsProduct(n, pool / (n as real));
  }

  lemma {:induction false} TimesIsProduct(n: nat, share: real)
    ensures Times(n, share) == (n as real) * share
  {
    if n > 0 {
      TimesIsProduct(n - 1, share);
    }
  }

  lemma {:induction false} ShareConserves(cs: seq<BranchEntry>, share: real, fuel: nat)
    ensures var h := Share(cs, share, fuel);
            ChildrenBalance(h.entries) + h.dropped == ChildrenBalance(cs) + Times(|cs|, share)
    decreases SizeAll(cs), 2, 0
  {
    if |cs| > 0 {
      SizeAllLast(cs);
      var n := |cs| - 1;
      var h := Share(cs[..n], share, fuel);
      ShareConserves(cs[..n], share, fuel);
      var d := Deposited(cs[n].account, share, fuel);
      DepositConserves(cs[n].account, share, fuel);
      ChildrenBalanceSnoc(h.entries, BranchEntry(d.account, cs[n].inflow));
    }
  }

  // ---------------------------------------------------------------------
  // Each pass serves its own policy only.

  /** The fixed pass never touches a Flex entry. */
  lemma {:induction false} FixedPassKeepsFlex(cs: seq<BranchEntry>, pool: real, fuel: nat)
    ensures forall i :: 0 <= i < |cs| && cs[i].inflow.Flex? ==> FixedPass(cs, pool, fuel).entries[i] == cs[i]
    decreases |cs|
  {
    if |cs| > 0 {
      FixedPassKeepsFlex(cs[..|cs| - 1], pool, fuel);
    }
  }

  lemma {:induction false} TotalFlexSameWeights(cs: seq<BranchEntry>, ds: seq<BranchEntry>)
    requires |cs| == |ds| && forall i :: 0 <= i < |cs| ==> GetFlex(cs[i]) == GetFlex(ds[i])
    ensures TotalFlex(cs) == TotalFlex(ds)
    decreases |cs|
  {
    if |cs| > 0 {
      TotalFlexSameWeights(cs[..|cs| - 1], ds[..|ds| - 1]);
    }
  }

  /** The fixed pass leaves the live flex weight as it was, so the weight the
      flex loop starts from is that of the children before any deposit. */
  lemma FixedPassKeepsTotalFlex(cs: seq<BranchEntry>, pool: real, fuel: nat)
    ensures TotalFlex(FixedPass(cs, pool, fuel).entries) == TotalFlex(cs)
  {
    var es := FixedPass(cs, pool, fuel).entries;
    FixedPassKeepsFlex(cs, pool, fuel);
    forall i | 0 <= i < |cs|
      ensures GetFlex(cs[i]) == GetFlex(es[i])
    {
      assert cs[i].inflow == es[i].inflow;
    }
    TotalFlexSameWeights(cs, es);
  }

  /** A flex round never touches a Fixed entry. */
  lemma {:induction false} FlexPassKeepsFixed(cs: seq<BranchEntry>, pool: real, perFlex: real, fuel: nat)
    ensures forall i :: 0 <= i < |cs| && cs[i].inflow.Fixed? ==> FlexPass(cs, pool, perFlex, fuel).entries[i] == cs[i]
    decreases |cs|
  {
    if |cs| > 0 {
      FlexPassKeepsFixed(cs[..|cs| - 1], pool, perFlex, fuel);
    }
  }

  /** Nor does the whole flex loop. */
  lemma {:induction false} FlexLoopKeepsFixed(cs: seq<BranchEntry>, pool: real, fuel: nat, rounds: nat)
    ensures forall i :: 0 <= i < |cs| && cs[i].inflow.Fixed? ==> FlexLoop(cs, pool, fuel, rounds).entries[i] == cs[i]
    decreases rounds
  {
    if rounds > 0 && FlexLive(cs, pool) {
      var s := FlexPass(cs, pool, pool / TotalFlex(cs), fuel);
      FlexPassKeepsFixed(cs, pool, pool / TotalFlex(cs), fuel);
      FlexLoopKeepsFixed(s.entries, s.pool, fuel, rounds - 1);
    }
  }

  // ---------------------------------------------------------------------
  // One step: what the child takes, and what it receives.

  /** A Fixed child takes the least of its fixed amount, its headroom and the
      pool; the pool handed on is short by exactly that take, and the child's
      subtree gains it less whatever its own branches dropped. */
  lemma FixedStepTakes(e: BranchEntry, available: real, fuel: nat)
    requires e.inflow.Fixed?
    ensures var t := FixedStep(e, available, fuel);
            var take := available - t.pool;
            take <= e.inflow.amount && take <= UntilMax(e) && take <= available &&
            (take == e.inflow.amount || take == UntilMax(e) || take == available) &&
            Balance(t.entry.account) + t.dropped == Balance(e.account) + take
  {
    var take := FixedTake(e, available);
    DepositConserves(e.account, take, fuel);
    assert FixedStep(e, available, fuel).pool == available - take;
  }

  /** A Flex child takes the least of `perFlex` times its weight, the pool and
      its headroom, with the same accounting. */
  lemma FlexStepTakes(e: BranchEntry, available: real, perFlex: real, fuel: nat)
    requires e.inflow.Flex?
    ensures var t := FlexStep(e, available, perFlex, fuel);
            var take := available - t.pool;
            take <= perFlex * e.inflow.weight && take <= UntilMax(e) && take <= available &&
            (take == perFlex * e.inflow.weight || take == UntilMax(e) || take == available) &&
            Balance(t.entry.account) + t.dropped == Balance(e.account) + take
  {
    var take := FlexTake(e, available, perFlex);
    DepositConserves(e.account, take, fuel);
    assert FlexStep(e, available, perFlex, fuel).pool == available - take;
  }

  // ---------------------------------------------------------------------
  // No pass overdraws the pool.

  lemma {:induction false} FixedPassPoolNonNegative(cs: seq<BranchEntry>, pool: real, fuel: nat)
    requires pool >= 0.0
    ensures FixedPass(cs, pool, fuel).pool >= 0.0
    decreases |cs|
  {
    if |cs| > 0 {
      FixedPassPoolNonNegative(cs[..|cs| - 1], pool, fuel);
    }
  }

  lemma {:induction false} FlexPassPoolNonNegative(cs: seq<BranchEntry>, pool: real, perFlex: real, fuel: nat)
    requires pool >= 0.0
    ensures FlexPass(cs, pool, perFlex, fuel).pool >= 0.0
    decreases |cs|
  {
    if |cs| > 0 {
      FlexPassPoolNonNegative(cs[..|cs| - 1], pool, perFlex, fuel);
    }
  }

  lemma {:induction false} FlexLoopPoolNonNegative(cs: seq<BranchEntry>, pool: real, fuel: nat, rounds: nat)
    requires pool >= 0.0
    ensures FlexLoop(cs, pool, fuel, rounds).pool >= 0.0
    decreases rounds
  {
    if rounds > 0 && FlexLive(cs, pool) {
      var s := FlexPass(cs, pool, pool / TotalFlex(cs), fuel);
      FlexPassPoolNonNegative(cs, pool, pool / TotalFlex(cs), fuel);
      FlexLoopPoolNonNegative(s.entries, s.pool, fuel, rounds - 1);
    }
  }

  // ---------------------------------------------------------------------
  // The overflow.

  lemma {:induction false} ShareAt(cs: seq<BranchEntry>, share: real, fuel: nat, i: nat)
    requires i < |cs|
    ensures Share(cs, share, fuel).entries[i] == BranchEntry(Deposited(cs[i].account, share, fuel).account, cs[i].inflow)
    decreases |cs|
  {
    if i < |cs| - 1 {
      ShareAt(cs[..|cs| - 1], share, fuel, i);
    }
  }

  /** When the even share of the leftover exceeds the residue, every child,
      Fixed and Flex alike, receives exactly that share and nothing is left;
      otherwise no child changes and the leftover stays unplaced. An empty
      branch places nothing. */
  lemma OverflowSpreads(cs: seq<BranchEntry>, pool: real, fuel: nat)
    ensures var o := Overflow(cs, pool, fuel);
            if |cs| > 0 && pool / (|cs| as real) > Residue then
              o.pool == 0.0 &&
              forall i :: 0 <= i < |cs| ==>
                o.entries[i] == BranchEntry(Deposited(cs[i].account, pool / (|cs| as real), fuel).account, cs[i].inflow)
            else
              o.entries == cs && o.pool == pool && o.dropped == 0.0
  {
    if |cs| > 0 && pool / (|cs| as real) > Residue {
      forall i | 0 <= i < |cs|
        ensures Overflow(cs, pool, fuel).entries[i]
             == BranchEntry(Deposited(cs[i].account, pool / (|cs| as real), fuel).account, cs[i].inflow)
      {
        ShareAt(cs, pool / (|cs| as real), fuel, i);
      }
    }
  }

  /** Leftover the overflow cannot spread is at most the residue per child. */
  lemma OverflowLeftover(cs: seq<BranchEntry>, pool: real, fuel: nat)
    requires |cs| > 0
    ensures Overflow(cs, pool, fuel).pool <= Residue * (|cs| as real)
    ensures pool >= 0.0 ==> Overflow(cs, pool, fuel).pool >= 0.0
  {
    var n := |cs| as real;
    if pool / n <= Residue {
      assert pool == (pool / n) * n;
      assert (pool / n) * n <= Residue * n;
    }
  }

  // ---------------------------------------------------------------------
  // Small and negative deposits.

  /** No child of the branch has a Fixed inflow. */
  predicate AllFlex(cs: seq<BranchEntry>)
  {
    forall i :: 0 <= i < |cs| ==> cs[i].inflow.Flex?
  }

  lemma {:induction false} FixedPassSkipsAllFlex(cs: seq<BranchEntry>, pool: real, fuel: nat)
    requires AllFlex(cs)
    ensures FixedPass(cs, pool, fuel) == Spread(cs, pool, 0.0)
    decreases |cs|
  {
    if |cs| > 0 {
      var n := |cs| - 1;
      FixedPassSkipsAllFlex(cs[..n], pool, fuel);
      assert FixedStep(cs[n], pool, fuel) == Step(cs[n], pool, 0.0);
      assert cs[..n] + [cs[n]] == cs;
    }
  }

  /** An even share of a pool of at most 0.01 is not above 0.01, so the
      overflow leaves the children alone. */
  lemma OverflowSkipsSmallPool(cs: seq<BranchEntry>, pool: real, fuel: nat)
    requires pool <= Residue
    ensures Overflow(cs, pool, fuel) == Spread(cs, pool, 0.0)
  {
    if |cs| > 0 {
      var n := |cs| as real;
      if pool > 0.0 {
        var share := pool / n;
        assert n >= 1.0 && share * n == pool && share > 0.0;
        assert share * (n - 1.0) >= 0.0;
        assert share <= pool;
      }
    }
  }

  /** The flex loop and the even split both need a pool above 0.01. With no
      Fixed child to change the pool, a branch therefore places none of an
      amount of at most 0.01, a negative one included, and drops it whole. */
  lemma FlexBranchPlacesNoSmallDeposit(a: Account, amount: real, fuel: nat)
    requires a.data.Branch? && AllFlex(a.data.children) && amount <= Residue
    ensures Deposited(a, amount, fuel) == Placed(a, amount)
  {
    var cs := a.data.children;
    FixedPassSkipsAllFlex(cs, amount, fuel);
    FlexLoopStop(cs, amount, fuel, fuel);
    OverflowSkipsSmallPool(cs, amount, fuel);
    DepositedBranch(a, amount, fuel);
  }

  // ---------------------------------------------------------------------
  // Branches whose children are all leaves.

  predicate AllLeaves(cs: seq<BranchEntry>)
  {
    forall i :: 0 <= i < |cs| ==> cs[i].account.data.Leaf?
  }

  /** Every leaf child is at or below its capacity. */
  predicate WithinCapacity(cs: seq<BranchEntry>)
  {
    forall i :: 0 <= i < |cs| && cs[i].account.data.Leaf? ==>
      cs[i].account.data.balance <= cs[i].account.data.max
  }

  lemma SameShapeLeaves(cs: seq<BranchEntry>, ds: seq<BranchEntry>)
    requires AllLeaves(cs) && SameShapeAll(cs, ds)
    ensures AllLeaves(ds)
  {
  }

  /** A leaf gains exactly the amount paid in and drops nothing. */
  lemma DepositLeaf(a: Account, amount: real, fuel: nat)
    requires a.data.Leaf?
    ensures Deposited(a, amount, fuel) == Placed(Account(a.name, Leaf(a.data.balance + amount, a.data.max)), 0.0)
  {
  }

  lemma LeafStepsDropNothing(e: BranchEntry, available: real, perFlex: real, fuel: nat)
    requires e.account.data.Leaf?
    ensures FixedStep(e, available, fuel).dropped == 0.0
    ensures FlexStep(e, available, perFlex, fuel).dropped == 0.0
  {
    if e.inflow.Fixed? {
      DepositLeaf(e.account, FixedTake(e, available), fuel);
    } else {
      DepositLeaf(e.account, FlexTake(e, available, perFlex), fuel);
    }
  }

  /** Paying into a leaf child drops nothing. */
  lemma {:induction false} LeafFixedPassDropsNothing(cs: seq<BranchEntry>, pool: real, fuel: nat)
    requires AllLeaves(cs)
    ensures FixedPass(cs, pool, fuel).dropped == 0.0
    decreases |cs|
  {
    if |cs| > 0 {
      var n := |cs| - 1;
      LeafFixedPassDropsNothing(cs[..n], pool, fuel);
      LeafStepsDropNothing(cs[n], FixedPass(cs[..n], pool, fuel).pool, 0.0, fuel);
    }
  }

  lemma {:induction false} LeafFlexPassDropsNothing(cs: seq<BranchEntry>, pool: real, perFlex: real, fuel: nat)
    requires AllLeaves(cs)
    ensures FlexPass(cs, pool, perFlex, fuel).dropped == 0.0
    decreases |cs|
  {
    if |cs| > 0 {
      var n := |cs| - 1;
      LeafFlexPassDropsNothing(cs[..n], pool, perFlex, fuel);
      LeafStepsDropNothing(cs[n], FlexPass(cs[..n], pool, perFlex, fuel).pool, perFlex, fuel);
    }
  }

  lemma {:induction false} LeafShareDropsNothing(cs: seq<BranchEntry>, share: real, fuel: nat)
    requires AllLeaves(cs)
    ensures Share(cs, share, fuel).dropped == 0.0
    decreases |cs|
  {
    if |cs| > 0 {
      LeafShareDropsNothing(cs[..|cs| - 1], share, fuel);
      DepositLeaf(cs[|cs| - 1].account, share, fuel);
    }
  }

  lemma {:induction false} LeafFlexLoopDropsNothing(cs: seq<BranchEntry>, pool: real, fuel: nat, rounds: nat)
    requires AllLeaves(cs)
    ensures FlexLoop(cs, pool, fuel, rounds).dropped == 0.0
    decreases rounds
  {
    if rounds > 0 && FlexLive(cs, pool) {
      var s := FlexPass(cs, pool, pool / TotalFlex(cs), fuel);
      LeafFlexPassDropsNothing(cs, pool, pool / TotalFlex(cs), fuel);
      SameShapeLeaves(cs, s.entries);
      LeafFlexLoopDropsNothing(s.entries, s.pool, fuel, rounds - 1);
    }
  }

  /** A non-negative deposit into a non-empty branch of leaves raises its
      balance by the amount, less at most the residue per child that the
      overflow declines to spread. */
  lemma LeafBranchDeposit(a: Account, amount: real, fuel: nat)
    requires a.data.Branch? && |a.data.children| > 0 && AllLeaves(a.data.children)
    requires amount >= 0.0
    ensures var after := Balance(Deposited(a, amount, fuel).account);
            Balance(a) + amount - Residue * (|a.data.children| as real) <= after <= Balance(a) + amount
  {
    DepositConserves(a, amount, fuel);
    LeafBranchDropped(a, amount, fuel);
  }

  /** What such a deposit drops is the overflow's unspread leftover. */
  lemma LeafBranchDropped(a: Account, amount: real, fuel: nat)
    requires a.data.Branch? && |a.data.children| > 0 && AllLeaves(a.data.children)
    requires amount >= 0.0
    ensures 0.0 <= Deposited(a, amount, fuel).dropped <= Residue * (|a.data.children| as real)
  {
    var cs := a.data.children;
    DepositedBranch(a, amount, fuel);
    var f := FixedPass(cs, amount, fuel);
    var x := FlexLoop(f.entries, f.pool, fuel, fuel);
    LeafPassesDropNothing(cs, amount, fuel);
    OverflowLeftover(x.entries, x.pool, fuel);
    if x.pool / (|cs| as real) > Residue {
      LeafShareDropsNothing(x.entries, x.pool / (|cs| as real), fuel);
    }
  }

  /** On leaf children the fixed pass and the flex loop drop nothing and
      leave a non-negative pool. */
  lemma LeafPassesDropNothing(cs: seq<BranchEntry>, amount: real, fuel: nat)
    requires AllLeaves(cs) && amount >= 0.0
    ensures var f := FixedPass(cs, amount, fuel);
            var x := FlexLoop(f.entries, f.pool, fuel, fuel);
            f.dropped == 0.0 && x.dropped == 0.0 && x.pool >= 0.0 &&
            AllLeaves(x.entries) && |x.entries| == |cs|
  {
    var f := FixedPass(cs, amount, fuel);
    LeafFixedPassDropsNothing(cs, amount, fuel);
    FixedPassPoolNonNegative(cs, amount, fuel);
    SameShapeLeaves(cs, f.entries);
    var x := FlexLoop(f.entries, f.pool, fuel, fuel);
    LeafFlexLoopDropsNothing(f.entries, f.pool, fuel, fuel);
    FlexLoopPoolNonNegative(f.entries, f.pool, fuel, fuel);
    SameShapeLeaves(f.entries, x.entries);
  }

  /** Paying `take` into a leaf whose headroom is at least `take` keeps it
      at or below capacity. */
  lemma LeafStepCapped(e: BranchEntry, take: real, fuel: nat)
    requires e.account.data.Leaf? && take <= UntilMax(e)
    ensures Deposited(e.account, take, fuel).account.data.balance <= e.account.data.max
  {
  }

  /** The fixed pass leaves every Fixed leaf child at or below its capacity,
      whatever its balance was. */
  lemma {:induction false} FixedPassCapsLeaves(cs: seq<BranchEntry>, pool: real, fuel: nat)
    ensures var s := FixedPass(cs, pool, fuel);
            forall i :: 0 <= i < |cs| && cs[i].inflow.Fixed? && cs[i].account.data.Leaf? ==>
              s.entries[i].account.data.balance <= cs[i].account.data.max
    decreases |cs|
  {
    if |cs| > 0 {
      var n := |cs| - 1;
      FixedPassCapsLeaves(cs[..n], pool, fuel);
      var p := FixedPass(cs[..n], pool, fuel).pool;
      if cs[n].inflow.Fixed? && cs[n].account.data.Leaf? {
        LeafStepCapped(cs[n], FixedTake(cs[n], p), fuel);
      }
    }
  }

  /** A flex round leaves every Flex leaf child at or below its capacity,
      whatever its balance was: a child above capacity is pulled down to it. */
  lemma {:induction false} FlexPassCapsLeaves(cs: seq<BranchEntry>, pool: real, perFlex: real, fuel: nat)
    ensures var s := FlexPass(cs, pool, perFlex, fuel);
            forall i :: 0 <= i < |cs| && cs[i].inflow.Flex? && cs[i].account.data.Leaf? ==>
              s.entries[i].account.data.balance <= cs[i].account.data.max
    decreases |cs|
  {
    if |cs| > 0 {
      var n := |cs| - 1;
      FlexPassCapsLeaves(cs[..n], pool, perFlex, fuel);
      var p := FlexPass(cs[..n], pool, perFlex, fuel).pool;
      if cs[n].inflow.Flex? && cs[n].account.data.Leaf? {
        LeafStepCapped(cs[n], FlexTake(cs[n], p, perFlex), fuel);
      }
    }
  }

  lemma FixedPassWithinCapacity(cs: seq<BranchEntry>, pool: real, fuel: nat)
    requires WithinCapacity(cs)
    ensures WithinCapacity(FixedPass(cs, pool, fuel).entries)
  {
    FixedPassCapsLeaves(cs, pool, fuel);
    FixedPassKeepsFlex(cs, pool, fuel);
  }

  lemma FlexPassWithinCapacity(cs: seq<BranchEntry>, pool: real, perFlex: real, fuel: nat)
    requires WithinCapacity(cs)
    ensures WithinCapacity(FlexPass(cs, pool, perFlex, fuel).entries)
  {
    FlexPassCapsLeaves(cs, pool, perFlex, fuel);
    FlexPassKeepsFixed(cs, pool, perFlex, fuel);
  }

  lemma {:induction false} FlexLoopWithinCapacity(cs: seq<BranchEntry>, pool: real, fuel: nat, rounds: nat)
    requires WithinCapacity(cs)
    ensures WithinCapacity(FlexLoop(cs, pool, fuel, rounds).entries)
    decreases rounds
  {
    if rounds > 0 && FlexLive(cs, pool) {
      var s := FlexPass(cs, pool, pool / TotalFlex(cs), fuel);
      FlexPassWithinCapacity(cs, pool, pool / TotalFlex(cs), fuel);
      FlexLoopWithinCapacity(s.entries, s.pool, fuel, rounds - 1);
    }
  }

  /** Capacity is a hard limit for the ordinary passes and a soft one for the
      overflow: if the leaf children start within capacity they stay there
      unless the overflow fires, and when it fires each child receives the
      same share whatever its headroom. */
  lemma DepositCapacity(a: Account, amount: real, fuel: nat)
    requires a.data.Branch? && WithinCapacity(a.data.children)
    ensures var cs := a.data.children;
            var f := FixedPass(cs, amount, fuel);
            var x := FlexLoop(f.entries, f.pool, fuel, fuel);
            var after := Deposited(a, amount, fuel).account.data.children;
            if |cs| > 0 && x.pool / (|cs| as real) > Residue then
              forall i :: 0 <= i < |cs| ==>
                after[i].account == Deposited(x.entries[i].account, x.pool / (|cs| as real), fuel).account
            else WithinCapacity(after)
  {
    var cs := a.data.children;
    DepositedBranch(a, amount, fuel);
    var f := FixedPass(cs, amount, fuel);
    FixedPassWithinCapacity(cs, amount, fuel);
    var x := FlexLoop(f.entries, f.pool, fuel, fuel);
    FlexLoopWithinCapacity(f.entries, f.pool, fuel, fuel);
    OverflowSpreads(x.entries, x.pool, fuel);
  }
}
