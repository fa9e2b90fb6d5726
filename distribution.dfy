/** Deposit distribution: how money paid into an account reaches the leaves.

    A leaf simply adds the amount. A branch runs three passes over its
    children, threading a pool of money not yet placed:
      1. a fixed pass in stored order, each Fixed child taking up to its
         fixed amount, its headroom and what is left;
      2. flex rounds, each offering every Flex child a share of the pool
         proportional to its weight, bounded by its headroom, until no live
         flex weight is left or the pool is at most the residue;
      3. an overflow that splits what is still left evenly over all children,
         ignoring capacity, when each share exceeds the residue; otherwise
         the leftover is dropped.

    The spec functions below also report how much money was dropped in the
    subtree, so that conservation can be stated exactly. The methods at the
    end are the in-place algorithm, proved to compute what the functions say. */
module Distribution {
  import opened Accounts

  /** Pools and shares at or below this are treated as spent. */
  const Residue: real := 0.01

  /** One entry after one step of a pass, with the pool it hands on. */
  datatype Step = Step(entry: BranchEntry, pool: real, dropped: real)

  /** The children after a pass, with the pool left over. */
  datatype Spread = Spread(entries: seq<BranchEntry>, pool: real, dropped: real)

  /** The children after the overflow share was paid into each of them. */
  datatype Shared = Shared(entries: seq<BranchEntry>, dropped: real)

  /** An account after a deposit, with the money its branches dropped. */
  datatype Placed = Placed(account: Account, dropped: real)

  /** What a Fixed child takes from `available`. */
  function FixedTake(e: BranchEntry, available: real): (take: real)
    requires e.inflow.Fixed?
    ensures take <= e.inflow.amount && take <= UntilMax(e) && take <= available
    ensures take == e.inflow.amount || take == UntilMax(e) || take == available
  {
    Min(Min(e.inflow.amount, UntilMax(e)), available)
  }

  /** What a Flex child takes from `available` when each unit of weight is
      offered `perFlex`. */
  function FlexTake(e: BranchEntry, available: real, perFlex: real): (take: real)
    requires e.inflow.Flex?
    ensures take <= perFlex * e.inflow.weight && take <= UntilMax(e) && take <= available
    ensures take == perFlex * e.inflow.weight || take == UntilMax(e) || take == available
  {
    Min(Min(perFlex * e.inflow.weight, available), UntilMax(e))
  }

  // ---------------------------------------------------------------------
  // Specification.

  /** The account after `amount` is paid into it. Each branch runs at most
      `fuel` flex rounds. */
  function Deposited(a: Account, amount: real, fuel: nat): (d: Placed)
    ensures SameShape(a, d.account)
    decreases Size(a), 0, 0
  {
    match a.data
    case Leaf(balance, max) => Placed(Account(a.name, Leaf(balance + amount, max)), 0.0)
    case Branch(cs) =>
      SizeOfBranch(a);
      var f := FixedPass(cs, amount, fuel);
      SameShapeAllSize(cs, f.entries);
      var x := FlexLoop(f.entries, f.pool, fuel, fuel);
      SameShapeAllSize(f.entries, x.entries);
      var o := Overflow(x.entries, x.pool, fuel);
      SameShapeAllTrans(cs, f.entries, x.entries);
      SameShapeAllTrans(cs, x.entries, o.entries);
      Placed(Account(a.name, Branch(o.entries)), f.dropped + x.dropped + o.dropped + o.pool)
  }

  /** make_fixed_deposit: a Fixed child takes its share; a Flex child passes
      the pool on untouched. */
  function FixedStep(e: BranchEntry, available: real, fuel: nat): (s: Step)
    ensures s.entry.inflow == e.inflow && SameShape(e.account, s.entry.account)
    decreases Size(e.account), 1, 0
  {
    match e.inflow
    case Fixed(_) =>
      var take := FixedTake(e, available);
      var d := Deposited(e.account, take, fuel);
      Step(BranchEntry(d.account, e.inflow), available - take, d.dropped)
    case Flex(_) =>
      SameShapeRefl(e.account);
      Step(e, available, 0.0)
  }

  /** make_flex_deposit: a Flex child takes its share; a Fixed child passes
      the pool on untouched. */
  function FlexStep(e: BranchEntry, available: real, perFlex: real, fuel: nat): (s: Step)
    ensures s.entry.inflow == e.inflow && SameShape(e.account, s.entry.account)
    decreases Size(e.account), 1, 0
  {
    match e.inflow
    case Flex(_) =>
      var take := FlexTake(e, available, perFlex);
      var d := Deposited(e.account, take, fuel);
      Step(BranchEntry(d.account, e.inflow), available - take, d.dropped)
    case Fixed(_) =>
      SameShapeRefl(e.account);
      Step(e, available, 0.0)
  }

  /** The fold of FixedStep over the children in stored order. */
  function FixedPass(cs: seq<BranchEntry>, pool: real, fuel: nat): (s: Spread)
    ensures SameShapeAll(cs, s.entries)
    decreases SizeAll(cs), 2, 0
  {
    if |cs| == 0 then Spread([], pool, 0.0)
    else
      SizeAllLast(cs);
      var n := |cs| - 1;
      var s := FixedPass(cs[..n], pool, fuel);
      var t := FixedStep(cs[n], s.pool, fuel);
      assert cs == cs[..n] + [cs[n]];
      SameShapeAllSnoc(cs[..n], s.entries, cs[n], t.entry);
      Spread(s.entries + [t.entry], t.pool, s.dropped + t.dropped)
  }

  /** The fold of FlexStep over the children in stored order: one flex round. */
  function FlexPass(cs: seq<BranchEntry>, pool: real, perFlex: real, fuel: nat): (s: Spread)
    ensures SameShapeAll(cs, s.entries)
    decreases SizeAll(cs), 2, 0
  {
    if |cs| == 0 then Spread([], pool, 0.0)
    else
      SizeAllLast(cs);
      var n := |cs| - 1;
      var s := FlexPass(cs[..n], pool, perFlex, fuel);
      var t := FlexStep(cs[n], s.pool, perFlex, fuel);
      assert cs == cs[..n] + [cs[n]];
      SameShapeAllSnoc(cs[..n], s.entries, cs[n], t.entry);
      Spread(s.entries + [t.entry], t.pool, s.dropped + t.dropped)
  }

  /** The flex loop runs another round while live flex weight remains and the
      pool exceeds the residue; `rounds` bounds how many it may still run. */
  predicate FlexLive(cs: seq<BranchEntry>, pool: real)
  {
    TotalFlex(cs) != 0.0 && pool > Residue
  }

  function FlexLoop(cs: seq<BranchEntry>, pool: real, fuel: nat, rounds: nat): (s: Spread)
    ensures SameShapeAll(cs, s.entries)
    decreases SizeAll(cs), 3, rounds
  {
    if rounds == 0 || !FlexLive(cs, pool) then
      SameShapeAllRefl(cs);
      Spread(cs, pool, 0.0)
    else
      var s := FlexPass(cs, pool, pool / TotalFlex(cs), fuel);
      SameShapeAllSize(cs, s.entries);
      var t := FlexLoop(s.entries, s.pool, fuel, rounds - 1);
      SameShapeAllTrans(cs, s.entries, t.entries);
      Spread(t.entries, t.pool, s.dropped + t.dropped)
  }

  /** The overflow: an even split over every child when each share exceeds
      the residue. The pool of the result is what is left unplaced. */
  function Overflow(cs: seq<BranchEntry>, pool: real, fuel: nat): (s: Spread)
    ensures SameShapeAll(cs, s.entries)
    decreases SizeAll(cs), 3, 0
  {
    if |cs| == 0 then Spread(cs, pool, 0.0)
    else
      var share := pool / (|cs| as real);
      if share > Residue then
        var h := Share(cs, share, fuel);
        Spread(h.entries, 0.0, h.dropped)
      else
        SameShapeAllRefl(cs);
        Spread(cs, pool, 0.0)
  }

  /** `share` paid into every child, capacity ignored. */
  function Share(cs: seq<BranchEntry>, share: real, fuel: nat): (h: Shared)
    ensures SameShapeAll(cs, h.entries)
    decreases SizeAll(cs), 2, 0
  {
    if |cs| == 0 then Shared([], 0.0)
    else
      SizeAllLast(cs);
      var n := |cs| - 1;
      var h := Share(cs[..n], share, fuel);
      var d := Deposited(cs[n].account, share, fuel);
      assert cs == cs[..n] + [cs[n]];
      SameShapeAllSnoc(cs[..n], h.entries, cs[n], BranchEntry(d.account, cs[n].inflow));
      Shared(h.entries + [BranchEntry(d.account, cs[n].inflow)], h.dropped + d.dropped)
  }

  /** One more round of the flex loop, when it is live and allowed one. */
  lemma FlexLoopRound(cs: seq<BranchEntry>, pool: real, fuel: nat, rounds: nat)
    requires rounds > 0 && FlexLive(cs, pool)
    ensures var s := FlexPass(cs, pool, pool / TotalFlex(cs), fuel);
            var t := FlexLoop(s.entries, s.pool, fuel, rounds - 1);
            FlexLoop(cs, pool, fuel, rounds) == Spread(t.entries, t.pool, s.dropped + t.dropped)
  {
  }

  /** The flex loop stops at once when it is not live or has no rounds left. */
  lemma FlexLoopStop(cs: seq<BranchEntry>, pool: real, fuel: nat, rounds: nat)
    requires rounds == 0 || !FlexLive(cs, pool)
    ensures FlexLoop(cs, pool, fuel, rounds) == Spread(cs, pool, 0.0)
  {
  }

  /** Each fold over the first `i + 1` children is its fold over the first
      `i`, followed by child `i`'s step. */
  lemma FixedPassExtend(cs: seq<BranchEntry>, i: nat, pool: real, fuel: nat)
    requires i < |cs|
    ensures var s := FixedPass(cs[..i], pool, fuel);
            var t := FixedStep(cs[i], s.pool, fuel);
            FixedPass(cs[..i + 1], pool, fuel) == Spread(s.entries + [t.entry], t.pool, s.dropped + t.dropped)
  {
    assert cs[..i + 1][..i] == cs[..i];
  }

  lemma FlexPassExtend(cs: seq<BranchEntry>, i: nat, pool: real, perFlex: real, fuel: nat)
    requires i < |cs|
    ensures var s := FlexPass(cs[..i], pool, perFlex, fuel);
            var t := FlexStep(cs[i], s.pool, perFlex, fuel);
            FlexPass(cs[..i + 1], pool, perFlex, fuel) == Spread(s.entries + [t.entry], t.pool, s.dropped + t.dropped)
  {
    assert cs[..i + 1][..i] == cs[..i];
  }

  lemma ShareExtend(cs: seq<BranchEntry>, i: nat, share: real, fuel: nat)
    requires i < |cs|
    ensures var h := Share(cs[..i], share, fuel);
            var d := Deposited(cs[i].account, share, fuel);
            Share(cs[..i + 1], share, fuel) == Shared(h.entries + [BranchEntry(d.account, cs[i].inflow)], h.dropped + d.dropped)
  {
    assert cs[..i + 1][..i] == cs[..i];
  }

  /** A branch deposit is its three passes in sequence. */
  lemma DepositedBranch(a: Account, amount: real, fuel: nat)
    requires a.data.Branch?
    ensures var f := FixedPass(a.data.children, amount, fuel);
            var x := FlexLoop(f.entries, f.pool, fuel, fuel);
            var o := Overflow(x.entries, x.pool, fuel);
            Deposited(a, amount, fuel) == Placed(Account(a.name, Branch(o.entries)), f.dropped + x.dropped + o.dropped + o.pool)
  {
  }

  // ---------------------------------------------------------------------
  // The algorithm.

  method MakeFixedDeposit(e: BranchEntry, available: real, fuel: nat) returns (r: BranchEntry, rest: real)
    ensures r == FixedStep(e, available, fuel).entry && rest == FixedStep(e, available, fuel).pool
    ensures e.inflow.Flex? ==> r == e && rest == available
    ensures e.inflow.Fixed? ==> rest == available - FixedTake(e, available)
    decreases Size(e.account), 1, 0
  {
    match e.inflow
    case Fixed(_) =>
      var take := FixedTake(e, available);
      var account := Deposit(e.account, take, fuel);
      r, rest := BranchEntry(account, e.inflow), available - take;
    case Flex(_) =>
      r, rest := e, available;
  }

  method MakeFlexDeposit(e: BranchEntry, available: real, perFlex: real, fuel: nat) returns (r: BranchEntry, rest: real)
    ensures r == FlexStep(e, available, perFlex, fuel).entry && rest == FlexStep(e, available, perFlex, fuel).pool
    ensures e.inflow.Fixed? ==> r == e && rest == available
    ensures e.inflow.Flex? ==> rest == available - FlexTake(e, available, perFlex)
    decreases Size(e.account), 1, 0
  {
    match e.inflow
    case Flex(_) =>
      var take := FlexTake(e, available, perFlex);
      var account := Deposit(e.account, take, fuel);
      r, rest := BranchEntry(account, e.inflow), available - take;
    case Fixed(_) =>
      r, rest := e, available;
  }

  /** Pays `amount` into `a`: the leaf adds it, the branch runs its three
      passes over its children. */
  method Deposit(a: Account, amount: real, fuel: nat) returns (r: Account)
    ensures r == Deposited(a, amount, fuel).account
    ensures SameShape(a, r)
    ensures a.data.Leaf? ==> r.data.balance == a.data.balance + amount
    ensures a.data.Branch? && |a.data.children| == 0 ==> r == a
    decreases Size(a), 0, 0
  {
    match a.data
    case Leaf(balance, max) =>
      r := Account(a.name, Leaf(balance + amount, max));
    case Branch(children) =>
      SizeOfBranch(a);
      var cs, pool := FixedDeposits(children, amount, fuel);
      SameShapeAllSize(children, cs);
      ghost var fixed := cs;
      cs, pool := FlexDeposits(cs, pool, fuel);
      SameShapeAllSize(fixed, cs);
      cs := Redistribute(cs, pool, fuel);
      DepositedBranch(a, amount, fuel);
      r := Account(a.name, Branch(cs));
  }

  /** The fixed fold: every child in stored order, the pool threaded through. */
  method FixedDeposits(children: seq<BranchEntry>, amount: real, fuel: nat) returns (cs: seq<BranchEntry>, pool: real)
    ensures cs == FixedPass(children, amount, fuel).entries
    ensures pool == FixedPass(children, amount, fuel).pool
    decreases SizeAll(children), 2, 0
  {
    cs, pool := [], amount;
    var i := 0;
    while i < |children|
      invariant 0 <= i <= |children|
      invariant cs == FixedPass(children[..i], amount, fuel).entries
      invariant pool == FixedPass(children[..i], amount, fuel).pool
    {
      SizeAllElement(children, i);
      var e, rest := MakeFixedDeposit(children[i], pool, fuel);
      FixedPassExtend(children, i, amount, fuel);
      cs, pool := cs + [e], rest;
      i := i + 1;
    }
    assert children[..|children|] == children;
  }

  /** The flex loop: rounds while live flex weight remains and the pool
      exceeds the residue, at most `fuel` of them. */
  method FlexDeposits(children: seq<BranchEntry>, amount: real, fuel: nat) returns (cs: seq<BranchEntry>, pool: real)
    ensures cs == FlexLoop(children, amount, fuel, fuel).entries
    ensures pool == FlexLoop(children, amount, fuel, fuel).pool
    decreases SizeAll(children), 3, 0
  {
    cs, pool := children, amount;
    var totalFlex := TotalFlex(cs);
    var rounds: nat := 0;
    ghost var goal := FlexLoop(children, amount, fuel, fuel);
    SameShapeAllRefl(children);
    while rounds < fuel && totalFlex != 0.0 && pool > Residue
      invariant rounds <= fuel
      invariant totalFlex == TotalFlex(cs)
      invariant SameShapeAll(children, cs)
      invariant LoopLeadsTo(cs, pool, fuel, fuel - rounds, goal)
    {
      assert FlexLive(cs, pool);
      var perFlex := pool / totalFlex;
      ghost var before, p0, left := cs, pool, fuel - rounds - 1;
      SameShapeAllSize(children, cs);
      cs, pool := FlexRound(cs, pool, perFlex, fuel);
      SameShapeAllTrans(children, before, cs);
      FlexLoopAdvance(before, p0, cs, pool, fuel, left, goal);
      totalFlex := TotalFlex(cs);
      rounds := rounds + 1;
    }
    FlexLoopDone(cs, pool, fuel, fuel - rounds, goal);
  }

  /** Running the flex loop from `cs` and `pool` with `rounds` rounds left
      ends with the children and pool of `goal`. */
  ghost predicate LoopLeadsTo(cs: seq<BranchEntry>, pool: real, fuel: nat, rounds: nat, goal: Spread)
  {
    var x := FlexLoop(cs, pool, fuel, rounds);
    x.entries == goal.entries && x.pool == goal.pool
  }

  /** One flex round over `cs` from `pool` leaves `next` and `nextPool`. */
  predicate RoundGives(cs: seq<BranchEntry>, pool: real, perFlex: real, fuel: nat, next: seq<BranchEntry>, nextPool: real)
  {
    var s := FlexPass(cs, pool, perFlex, fuel);
    next == s.entries && nextPool == s.pool
  }

  /** After one live round the loop still leads to the same end. */
  lemma FlexLoopAdvance(cs: seq<BranchEntry>, pool: real, next: seq<BranchEntry>, nextPool: real,
                        fuel: nat, rest: nat, goal: Spread)
    requires FlexLive(cs, pool) && LoopLeadsTo(cs, pool, fuel, rest + 1, goal)
    requires RoundGives(cs, pool, pool / TotalFlex(cs), fuel, next, nextPool)
    ensures LoopLeadsTo(next, nextPool, fuel, rest, goal)
  {
    FlexLoopRound(cs, pool, fuel, rest + 1);
  }

  lemma FlexLoopDone(cs: seq<BranchEntry>, pool: real, fuel: nat, rounds: nat, goal: Spread)
    requires (rounds == 0 || !FlexLive(cs, pool)) && LoopLeadsTo(cs, pool, fuel, rounds, goal)
    ensures cs == goal.entries && pool == goal.pool
  {
    FlexLoopStop(cs, pool, fuel, rounds);
  }

  /** One flex round: the flex fold over every child in stored order. */
  method FlexRound(children: seq<BranchEntry>, amount: real, perFlex: real, fuel: nat) returns (cs: seq<BranchEntry>, pool: real)
    ensures RoundGives(children, amount, perFlex, fuel, cs, pool)
    decreases SizeAll(children), 2, 0
  {
    cs, pool := [], amount;
    var j := 0;
    while j < |children|
      invariant 0 <= j <= |children|
      invariant cs == FlexPass(children[..j], amount, perFlex, fuel).entries
      invariant pool == FlexPass(children[..j], amount, perFlex, fuel).pool
    {
      SizeAllElement(children, j);
      var e, rest := MakeFlexDeposit(children[j], pool, perFlex, fuel);
      FlexPassExtend(children, j, amount, perFlex, fuel);
      cs, pool := cs + [e], rest;
      j := j + 1;
    }
    assert children[..|children|] == children;
  }

  /** The overflow: when the even share of what is left exceeds the residue,
      every child receives it; otherwise nothing more is paid. */
  method Redistribute(children: seq<BranchEntry>, amount: real, fuel: nat) returns (cs: seq<BranchEntry>)
    ensures cs == Overflow(children, amount, fuel).entries
    decreases SizeAll(children), 3, 0
  {
    if |children| == 0 {
      return children;
    }
    var remaining := amount / (|children| as real);
    if remaining <= Residue {
      return children;
    }
    cs := [];
    var k := 0;
    while k < |children|
      invariant 0 <= k <= |children|
      invariant cs == Share(children[..k], remaining, fuel).entries
    {
      SizeAllElement(children, k);
      var account := Deposit(children[k].account, remaining, fuel);
      ShareExtend(children, k, remaining, fuel);
      cs := cs + [BranchEntry(account, children[k].inflow)];
      k := k + 1;
    }
    assert children[..|children|] == children;
  }
}
