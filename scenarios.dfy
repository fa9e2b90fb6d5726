/** Deposits into small concrete trees, worked through the three passes. */
module Scenarios {
  import opened Accounts
  import opened Distribution
  import opened DistributionFacts

  /** A leaf child with Flex weight 1. */
  function FlexLeaf(name: string, balance: real, max: real): BranchEntry
  {
    BranchEntry(Account(name, Leaf(balance, max)), Flex(1.0))
  }

  /** Such a child is offered `perFlex`, and takes at most the pool and at
      most its headroom, which is negative when it is over its max. */
  lemma FlexLeafTake(name: string, balance: real, max: real, available: real, perFlex: real)
    ensures FlexTake(FlexLeaf(name, balance, max), available, perFlex) == Min(Min(perFlex, available), max - balance)
    ensures GetFlex(FlexLeaf(name, balance, max)) == if balance < max then 1.0 else 0.0
  {
  }

  /** It tops up by what it takes and hands on the rest. */
  lemma FlexLeafStep(name: string, balance: real, max: real, available: real, perFlex: real, fuel: nat)
    ensures var take := FlexTake(FlexLeaf(name, balance, max), available, perFlex);
            FlexStep(FlexLeaf(name, balance, max), available, perFlex, fuel)
              == Step(FlexLeaf(name, balance + take, max), available - take, 0.0)
  {
  }

  lemma TotalFlexPair(e0: BranchEntry, e1: BranchEntry)
    ensures TotalFlex([e0, e1]) == GetFlex(e0) + GetFlex(e1)
  {
    assert [e0, e1][..1] == [e0];
    assert [e0][..0] == [];
    assert TotalFlex([e0]) == GetFlex(e0);
  }

  /** A flex round over `xs + [e]` is the round over `xs` followed by `e`'s
      step. */
  lemma FlexPassSnoc(xs: seq<BranchEntry>, e: BranchEntry, pool: real, perFlex: real, fuel: nat)
    ensures var s := FlexPass(xs, pool, perFlex, fuel);
            var t := FlexStep(e, s.pool, perFlex, fuel);
            FlexPass(xs + [e], pool, perFlex, fuel) == Spread(s.entries + [t.entry], t.pool, s.dropped + t.dropped)
  {
    assert (xs + [e])[..|xs|] == xs;
  }

  /** A flex round over two children is the first child's step followed by
      the second's. */
  lemma FlexPassPair(e0: BranchEntry, e1: BranchEntry, pool: real, perFlex: real, fuel: nat)
    ensures var t0 := FlexStep(e0, pool, perFlex, fuel);
            var t1 := FlexStep(e1, t0.pool, perFlex, fuel);
            FlexPass([e0, e1], pool, perFlex, fuel) == Spread([t0.entry, t1.entry], t1.pool, t0.dropped + t1.dropped)
  {
    var t0 := FlexStep(e0, pool, perFlex, fuel);
    var t1 := FlexStep(e1, t0.pool, perFlex, fuel);
    FlexPassOne(e0, pool, perFlex, fuel);
    FlexPassSnoc([e0], e1, pool, perFlex, fuel);
    assert [e0] + [e1] == [e0, e1] && [t0.entry] + [t1.entry] == [t0.entry, t1.entry];
  }

  lemma FlexPassOne(e0: BranchEntry, pool: real, perFlex: real, fuel: nat)
    ensures var t0 := FlexStep(e0, pool, perFlex, fuel);
            FlexPass([e0], pool, perFlex, fuel) == Spread([t0.entry], t0.pool, t0.dropped)
  {
    var t0 := FlexStep(e0, pool, perFlex, fuel);
    FlexPassSnoc([], e0, pool, perFlex, fuel);
    assert [] + [e0] == [e0] && [] + [t0.entry] == [t0.entry];
  }

  /** One flex round over two weight-1 leaves, given what each takes. */
  lemma LeafPairRound(x: string, balX: real, maxX: real, tx: real, y: string, balY: real, maxY: real, ty: real,
                      pool: real, perFlex: real, fuel: nat)
    requires tx == Min(Min(perFlex, pool), maxX - balX)
    requires ty == Min(Min(perFlex, pool - tx), maxY - balY)
    ensures FlexPass([FlexLeaf(x, balX, maxX), FlexLeaf(y, balY, maxY)], pool, perFlex, fuel)
         == Spread([FlexLeaf(x, balX + tx, maxX), FlexLeaf(y, balY + ty, maxY)], pool - tx - ty, 0.0)
  {
    FlexPassPair(FlexLeaf(x, balX, maxX), FlexLeaf(y, balY, maxY), pool, perFlex, fuel);
    FlexLeafTake(x, balX, maxX, pool, perFlex);
    FlexLeafStep(x, balX, maxX, pool, perFlex, fuel);
    FlexLeafTake(y, balY, maxY, pool - tx, perFlex);
    FlexLeafStep(y, balY, maxY, pool - tx, perFlex, fuel);
  }

  /** The first round offers 10 per unit of weight: x, 5 over its max, is
      pulled down to it, and y takes 10. */
  lemma ExampleFirstRound(fuel: nat)
    ensures FlexLoop([FlexLeaf("x", 10.0, 5.0), FlexLeaf("y", 0.0, 100.0)], 10.0, fuel, 2)
         == FlexLoop([FlexLeaf("x", 5.0, 5.0), FlexLeaf("y", 10.0, 100.0)], 5.0, fuel, 1)
  {
    var cs := [FlexLeaf("x", 10.0, 5.0), FlexLeaf("y", 0.0, 100.0)];
    TotalFlexPair(cs[0], cs[1]);
    FlexLeafTake("x", 10.0, 5.0, 0.0, 0.0);
    FlexLeafTake("y", 0.0, 100.0, 0.0, 0.0);
    LeafPairRound("x", 10.0, 5.0, -5.0, "y", 0.0, 100.0, 10.0, 10.0, 10.0, fuel);
    FlexLoopRound(cs, 10.0, fuel, 2);
  }

  /** The second round spends the remaining 5 on y, the only child below
      its max. */
  lemma ExampleSecondRound(fuel: nat)
    ensures FlexLoop([FlexLeaf("x", 5.0, 5.0), FlexLeaf("y", 10.0, 100.0)], 5.0, fuel, 1)
         == Spread([FlexLeaf("x", 5.0, 5.0), FlexLeaf("y", 15.0, 100.0)], 0.0, 0.0)
  {
    var c1 := [FlexLeaf("x", 5.0, 5.0), FlexLeaf("y", 10.0, 100.0)];
    var c2 := [FlexLeaf("x", 5.0, 5.0), FlexLeaf("y", 15.0, 100.0)];
    TotalFlexPair(c1[0], c1[1]);
    FlexLeafTake("x", 5.0, 5.0, 0.0, 0.0);
    FlexLeafTake("y", 10.0, 100.0, 0.0, 0.0);
    LeafPairRound("x", 5.0, 5.0, 0.0, "y", 10.0, 100.0, 5.0, 5.0, 5.0, fuel);
    FlexLoopRound(c1, 5.0, fuel, 1);
    FlexLoopStop(c2, 0.0, fuel, 0);
  }

  /** A Flex child above its capacity takes a negative amount in a flex round:
      it is pulled down to its max and the excess goes to its siblings. */
  lemma OverfullFlexChildIsPulledDown()
    ensures var a := Account("b", Branch([FlexLeaf("x", 10.0, 5.0), FlexLeaf("y", 0.0, 100.0)]));
            var d := Deposited(a, 10.0, 2);
            d.account.data.children == [FlexLeaf("x", 5.0, 5.0), FlexLeaf("y", 15.0, 100.0)] &&
            d.dropped == 0.0
  {
    var cs := [FlexLeaf("x", 10.0, 5.0), FlexLeaf("y", 0.0, 100.0)];
    var c2 := [FlexLeaf("x", 5.0, 5.0), FlexLeaf("y", 15.0, 100.0)];
    FixedPassSkipsAllFlex(cs, 10.0, 2);
    ExampleFirstRound(2);
    ExampleSecondRound(2);
    assert Overflow(c2, 0.0, 2) == Spread(c2, 0.0, 0.0);
    DepositedBranch(Account("b", Branch(cs)), 10.0, 2);
  }

  /** A leftover whose even share is at most the residue is not placed
      anywhere: the branch's balance does not grow by the whole amount. */
  lemma SmallLeftoverIsDropped()
    ensures var a := Account("b", Branch([FlexLeaf("x", 5.0, 5.0)]));
            var d := Deposited(a, 0.005, 3);
            d.account == a && d.dropped == 0.005
  {
    var cs := [FlexLeaf("x", 5.0, 5.0)];
    assert FixedPass(cs, 0.005, 3) == Spread(cs, 0.005, 0.0);
    assert TotalFlex(cs) == 0.0;
    FlexLoopStop(cs, 0.005, 3, 3);
    DepositedBranch(Account("b", Branch(cs)), 0.005, 3);
  }

  /** A branch whose only child, a Flex leaf, holds 10 against a max of 5:
      the branch is over its capacity by 5. */
  function OverfullBranch(): Account
  {
    Account("b", Branch([BranchEntry(Account("l", Leaf(10.0, 5.0)), Flex(1.0))]))
  }

  /** Asked to take -5, that branch places nothing: it has no Fixed child,
      so the pool stays at -5, too small for the flex loop and the split.
      The account is unchanged and all of the -5 is reported as dropped. */
  lemma OverfullBranchPlacesNothing(fuel: nat)
    ensures Deposited(OverfullBranch(), -5.0, fuel) == Placed(OverfullBranch(), -5.0)
  {
    FlexBranchPlacesNoSmallDeposit(OverfullBranch(), -5.0, fuel);
  }

  /** The same branch with its leaf on a Fixed(3) inflow does give the 5 back:
      the fixed take is min(3, -5, -5) = -5, which pulls the leaf down to its
      max and drops nothing. */
  lemma OverfullFixedBranchGivesBack(fuel: nat)
    ensures var b := Account("b", Branch([BranchEntry(Account("l", Leaf(10.0, 5.0)), Fixed(3.0))]));
            Deposited(b, -5.0, fuel) == Placed(Account("b", Branch([BranchEntry(Account("l", Leaf(5.0, 5.0)), Fixed(3.0))])), 0.0)
  {
    var e := BranchEntry(Account("l", Leaf(10.0, 5.0)), Fixed(3.0));
    var e' := BranchEntry(Account("l", Leaf(5.0, 5.0)), Fixed(3.0));
    var b := Account("b", Branch([e]));
    assert FixedTake(e, -5.0) == -5.0;
    assert FixedStep(e, -5.0, fuel) == Step(e', 0.0, 0.0);
    assert [e][..0] == [];
    assert FixedPass([e], -5.0, fuel) == Spread([e'], 0.0, 0.0);
    assert TotalFlex([e']) == 0.0;
    FlexLoopStop([e'], 0.0, fuel, fuel);
    OverflowSkipsSmallPool([e'], 0.0, fuel);
    DepositedBranch(b, -5.0, fuel);
  }

  /** In a flex round over that branch and a leaf c (0 of 100, Flex 1) with
      10 in the pool, the branch takes its headroom -5, so the pool grows to
      15, and c takes its offer of 10. The branch keeps its 10, c holds 10 and
      5 is still in the pool: 25 where there were 20, and the round reports -5
      as dropped. */
  lemma OverfullBranchChildAddsMoney(fuel: nat)
    ensures var cs := [BranchEntry(OverfullBranch(), Flex(1.0)), FlexLeaf("c", 0.0, 100.0)];
            var s := FlexPass(cs, 10.0, 10.0, fuel);
            s == Spread([BranchEntry(OverfullBranch(), Flex(1.0)), FlexLeaf("c", 10.0, 100.0)], 5.0, -5.0) &&
            ChildrenBalance(s.entries) + s.pool == ChildrenBalance(cs) + 10.0 + 5.0
  {
    var e := BranchEntry(OverfullBranch(), Flex(1.0));
    var cs := [e, FlexLeaf("c", 0.0, 100.0)];
    FlexPassPair(e, FlexLeaf("c", 0.0, 100.0), 10.0, 10.0, fuel);
    assert UntilMax(e) == -5.0 by {
      assert ChildrenBalance(OverfullBranch().data.children) == 10.0;
      assert ChildrenMax(OverfullBranch().data.children) == 5.0;
    }
    assert FlexTake(e, 10.0, 10.0) == -5.0;
    OverfullBranchPlacesNothing(fuel);
    assert FlexStep(e, 10.0, 10.0, fuel) == Step(e, 15.0, -5.0);
    FlexLeafTake("c", 0.0, 100.0, 15.0, 10.0);
    FlexLeafStep("c", 0.0, 100.0, 15.0, 10.0, fuel);
    FlexPassConserves(cs, 10.0, 10.0, fuel);
  }
}
