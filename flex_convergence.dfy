/** When the flex loop stops by its own exit condition rather than by running
    out of rounds. For a branch of leaves whose Flex children have
    non-negative weights and are at or below capacity it always does: each
    round either empties the pool or fills at least one more Flex child to
    capacity. */
module FlexConvergence {
  import opened Accounts
  import opened Distribution
  import opened DistributionFacts

  /** Started from `cs` and `pool`, the flex loop reaches its exit condition
      (no live flex weight, or a pool at most the residue) within `rounds`
      rounds. */
  predicate Settles(cs: seq<BranchEntry>, pool: real, fuel: nat, rounds: nat)
    decreases rounds
  {
    !FlexLive(cs, pool) ||
    (rounds > 0 &&
     var s := FlexPass(cs, pool, pool / TotalFlex(cs), fuel);
     Settles(s.entries, s.pool, fuel, rounds - 1))
  }

  /** The loop ends on its exit condition exactly when it settles within its
      round budget. */
  lemma {:induction false} FlexLoopExit(cs: seq<BranchEntry>, pool: real, fuel: nat, rounds: nat)
    ensures var s := FlexLoop(cs, pool, fuel, rounds);
            Settles(cs, pool, fuel, rounds) <==> !FlexLive(s.entries, s.pool)
    decreases rounds
  {
    if rounds > 0 && FlexLive(cs, pool) {
      var s := FlexPass(cs, pool, pool / TotalFlex(cs), fuel);
      FlexLoopExit(s.entries, s.pool, fuel, rounds - 1);
    }
  }

  lemma {:induction false} SettlesMonotone(cs: seq<BranchEntry>, pool: real, fuel: nat, rounds: nat, more: nat)
    requires Settles(cs, pool, fuel, rounds) && rounds <= more
    ensures Settles(cs, pool, fuel, more)
    decreases rounds
  {
    if FlexLive(cs, pool) {
      var s := FlexPass(cs, pool, pool / TotalFlex(cs), fuel);
      SettlesMonotone(s.entries, s.pool, fuel, rounds - 1, more - 1);
    }
  }

  // ---------------------------------------------------------------------
  // Water-filling over leaves.

  /** A Flex child that still takes money in a round: positive weight and
      positive headroom. */
  predicate IsLive(e: BranchEntry)
  {
    e.inflow.Flex? && e.inflow.weight > 0.0 &&
    e.account.data.Leaf? && e.account.data.balance < e.account.data.max
  }

  function LiveCount(cs: seq<BranchEntry>): nat
  {
    if |cs| == 0 then 0 else LiveCount(cs[..|cs| - 1]) + (if IsLive(cs[|cs| - 1]) then 1 else 0)
  }

  /** A child the water-filling argument applies to: a leaf, and when it is a
      Flex child, one with a non-negative weight at or below capacity. */
  predicate Fillable(e: BranchEntry)
  {
    e.account.data.Leaf? &&
    (e.inflow.Flex? ==> e.inflow.weight >= 0.0 && e.account.data.balance <= e.account.data.max)
  }

  predicate AllFillable(cs: seq<BranchEntry>)
  {
    |cs| == 0 || (AllFillable(cs[..|cs| - 1]) && Fillable(cs[|cs| - 1]))
  }

  /** On a fillable child the round's weight is its own weight while it is
      live and nothing otherwise. */
  lemma FillableFlex(e: BranchEntry)
    requires Fillable(e)
    ensures UntilMax(e) == e.account.data.max - e.account.data.balance
    ensures GetFlex(e) == if IsLive(e) then e.inflow.weight else 0.0
    ensures GetFlex(e) >= 0.0
  {
  }

  lemma {:induction false} TotalFlexNonNegative(cs: seq<BranchEntry>)
    requires AllFillable(cs)
    ensures TotalFlex(cs) >= 0.0
    ensures LiveCount(cs) == 0 ==> TotalFlex(cs) == 0.0
    decreases |cs|
  {
    if |cs| > 0 {
      TotalFlexNonNegative(cs[..|cs| - 1]);
      FillableFlex(cs[|cs| - 1]);
    }
  }

  /** What one flex step does to the water-filling measure: the pool never
      goes negative, a child can only stop being live, and unless the pool ran
      dry or the child was filled, the child took exactly its proportional
      share. */
  predicate StepProgress(e: BranchEntry, available: real, perFlex: real, t: Step)
  {
    t.pool >= 0.0 && (IsLive(t.entry) ==> IsLive(e)) && perFlex * GetFlex(e) >= 0.0 &&
    (t.pool == 0.0 || (IsLive(e) && !IsLive(t.entry)) || t.pool == available - perFlex * GetFlex(e))
  }

  /** The same for a whole round. */
  predicate PassProgress(cs: seq<BranchEntry>, pool: real, perFlex: real, s: Spread)
  {
    s.pool >= 0.0 && LiveCount(s.entries) <= LiveCount(cs) &&
    (LiveCount(s.entries) < LiveCount(cs) || s.pool == 0.0 || s.pool == pool - Demand(cs, perFlex))
  }

  lemma FlexStepProgress(e: BranchEntry, available: real, perFlex: real, fuel: nat)
    requires Fillable(e) && available >= 0.0 && perFlex >= 0.0
    ensures var t := FlexStep(e, available, perFlex, fuel);
            Fillable(t.entry) && StepProgress(e, available, perFlex, t)
  {
    var t := FlexStep(e, available, perFlex, fuel);
    if e.inflow.Flex? {
      var take := FlexTake(e, available, perFlex);
      FillableFlex(e);
      DepositLeaf(e.account, take, fuel);
      if !IsLive(e) {
        assert perFlex * e.inflow.weight >= 0.0;
        assert take == 0.0;
      }
    } else {
      SameShapeLeaves([e], [t.entry]);
    }
  }

  /** A flex round keeps the children fillable. */
  lemma {:induction false} FlexPassFillable(cs: seq<BranchEntry>, pool: real, perFlex: real, fuel: nat)
    requires AllFillable(cs) && pool >= 0.0 && perFlex >= 0.0
    ensures AllFillable(FlexPass(cs, pool, perFlex, fuel).entries)
    decreases |cs|
  {
    if |cs| > 0 {
      var n := |cs| - 1;
      var s := FlexPass(cs[..n], pool, perFlex, fuel);
      FlexPassFillable(cs[..n], pool, perFlex, fuel);
      FlexPassPoolNonNegative(cs[..n], pool, perFlex, fuel);
      FlexStepProgress(cs[n], s.pool, perFlex, fuel);
      var t := FlexStep(cs[n], s.pool, perFlex, fuel);
      assert (s.entries + [t.entry])[..n] == s.entries;
    }
  }

  /** The fixed pass keeps the children fillable. */
  lemma {:induction false} FixedPassFillable(cs: seq<BranchEntry>, pool: real, fuel: nat)
    requires AllFillable(cs)
    ensures AllFillable(FixedPass(cs, pool, fuel).entries)
    decreases |cs|
  {
    if |cs| > 0 {
      var n := |cs| - 1;
      var s := FixedPass(cs[..n], pool, fuel);
      FixedPassFillable(cs[..n], pool, fuel);
      var t := FixedStep(cs[n], s.pool, fuel);
      SameShapeLeaves([cs[n]], [t.entry]);
      assert (s.entries + [t.entry])[..n] == s.entries;
    }
  }

  /** What a flex round asks for in total: each child's flex weight times the
      per-weight share. */
  function Demand(cs: seq<BranchEntry>, perFlex: real): real
  {
    if |cs| == 0 then 0.0 else Demand(cs[..|cs| - 1], perFlex) + perFlex * GetFlex(cs[|cs| - 1])
  }

  lemma {:induction false} DemandIsShareOfTotal(cs: seq<BranchEntry>, perFlex: real)
    ensures Demand(cs, perFlex) == perFlex * TotalFlex(cs)
    decreases |cs|
  {
    if |cs| > 0 {
      var n := |cs| - 1;
      DemandIsShareOfTotal(cs[..n], perFlex);
      assert perFlex * TotalFlex(cs) == perFlex * TotalFlex(cs[..n]) + perFlex * GetFlex(cs[n]);
    }
  }

  /** How the facts about a round's prefix and its last step add up. */
  lemma CombineProgress(pool: real, sp: real, tp: real, prefixTake: real, lastTake: real,
                        lcS: nat, lcP: nat, liveE: bool, liveT: bool)
    requires sp >= 0.0 && lcS <= lcP && (lcS < lcP || sp == 0.0 || sp == pool - prefixTake)
    requires tp >= 0.0 && lastTake >= 0.0 && (liveT ==> liveE)
    requires tp == 0.0 || (liveE && !liveT) || tp == sp - lastTake
    ensures var lcOut := lcS + (if liveT then 1 else 0);
            var lcIn := lcP + (if liveE then 1 else 0);
            lcOut <= lcIn && (lcOut < lcIn || tp == 0.0 || tp == pool - (prefixTake + lastTake))
  {
  }

  lemma LiveCountSnoc(cs: seq<BranchEntry>, e: BranchEntry)
    ensures LiveCount(cs + [e]) == LiveCount(cs) + (if IsLive(e) then 1 else 0)
  {
    assert (cs + [e])[..|cs|] == cs;
  }

  /** The progress facts of a round extend from all children but the last to
      all of them. */
  lemma ProgressSnoc(cs: seq<BranchEntry>, pool: real, perFlex: real, s: Spread, t: Step)
    requires |cs| > 0
    requires PassProgress(cs[..|cs| - 1], pool, perFlex, s)
    requires StepProgress(cs[|cs| - 1], s.pool, perFlex, t)
    ensures PassProgress(cs, pool, perFlex, Spread(s.entries + [t.entry], t.pool, s.dropped + t.dropped))
  {
    var n := |cs| - 1;
    LiveCountSnoc(s.entries, t.entry);
    CombineProgress(pool, s.pool, t.pool, Demand(cs[..n], perFlex), perFlex * GetFlex(cs[n]),
                    LiveCount(s.entries), LiveCount(cs[..n]), IsLive(cs[n]), IsLive(t.entry));
  }

  /** One flex round: either some live child was filled, or the pool is
      empty, or every live child took exactly its proportional share. */
  lemma {:induction false} FlexPassProgress(cs: seq<BranchEntry>, pool: real, perFlex: real, fuel: nat)
    requires AllFillable(cs) && pool >= 0.0 && perFlex >= 0.0
    ensures PassProgress(cs, pool, perFlex, FlexPass(cs, pool, perFlex, fuel))
    decreases |cs|
  {
    if |cs| > 0 {
      var n := |cs| - 1;
      var s := FlexPass(cs[..n], pool, perFlex, fuel);
      var t := FlexStep(cs[n], s.pool, perFlex, fuel);
      FlexPassProgress(cs[..n], pool, perFlex, fuel);
      FlexStepProgress(cs[n], s.pool, perFlex, fuel);
      ProgressSnoc(cs, pool, perFlex, s, t);
      FlexPassExtend(cs, n, pool, perFlex, fuel);
      assert cs[..n + 1] == cs;
    } else {
      assert FlexPass(cs, pool, perFlex, fuel) == Spread([], pool, 0.0);
    }
  }

  /** A live round on fillable children either fills some live child to
      capacity or spends the whole pool. */
  lemma RoundOutcome(cs: seq<BranchEntry>, pool: real, fuel: nat)
    requires AllFillable(cs) && pool >= 0.0 && FlexLive(cs, pool)
    ensures var s := FlexPass(cs, pool, pool / TotalFlex(cs), fuel);
            LiveCount(cs) > 0 && AllFillable(s.entries) && s.pool >= 0.0 &&
            (LiveCount(s.entries) < LiveCount(cs) || !FlexLive(s.entries, s.pool))
  {
    TotalFlexNonNegative(cs);
    var perFlex := pool / TotalFlex(cs);
    RoundSpendsPool(cs, pool);
    FlexPassProgress(cs, pool, perFlex, fuel);
    FlexPassFillable(cs, pool, perFlex, fuel);
  }

  /** A live round's per-weight share is non-negative, and the round asks for
      exactly the pool. */
  lemma RoundSpendsPool(cs: seq<BranchEntry>, pool: real)
    requires TotalFlex(cs) > 0.0 && pool >= 0.0
    ensures pool / TotalFlex(cs) >= 0.0
    ensures Demand(cs, pool / TotalFlex(cs)) == pool
  {
    var total := TotalFlex(cs);
    assert (pool / total) * total == pool;
    DemandIsShareOfTotal(cs, pool / total);
  }

  /** Water-filling terminates: on fillable children with a non-negative pool
      the loop settles within as many rounds as there are live Flex children. */
  lemma {:induction false} WaterFillingSettles(cs: seq<BranchEntry>, pool: real, fuel: nat)
    requires AllFillable(cs) && pool >= 0.0
    ensures Settles(cs, pool, fuel, LiveCount(cs))
    decreases LiveCount(cs)
  {
    if FlexLive(cs, pool) {
      var s := FlexPass(cs, pool, pool / TotalFlex(cs), fuel);
      RoundOutcome(cs, pool, fuel);
      if LiveCount(s.entries) < LiveCount(cs) {
        WaterFillingSettles(s.entries, s.pool, fuel);
        SettlesMonotone(s.entries, s.pool, fuel, LiveCount(s.entries), LiveCount(cs) - 1);
      }
    }
  }

  lemma {:induction false} LiveCountBound(cs: seq<BranchEntry>)
    ensures LiveCount(cs) <= |cs|
    decreases |cs|
  {
    if |cs| > 0 {
      LiveCountBound(cs[..|cs| - 1]);
    }
  }

  /** With at least as many rounds as there are live Flex children, the flex
      loop stops on its own exit condition, the state at which the unbounded
      loop stops too. */
  lemma FlexLoopRunsToExit(cs: seq<BranchEntry>, pool: real, fuel: nat, rounds: nat)
    requires AllFillable(cs) && pool >= 0.0 && LiveCount(cs) <= rounds
    ensures var x := FlexLoop(cs, pool, fuel, rounds); !FlexLive(x.entries, x.pool)
  {
    WaterFillingSettles(cs, pool, fuel);
    SettlesMonotone(cs, pool, fuel, LiveCount(cs), rounds);
    FlexLoopExit(cs, pool, fuel, rounds);
  }

  /** A non-negative deposit into a branch of fillable leaves with at least
      one round per child runs its flex loop to the loop's own exit
      condition, so the round bound does not cut it short. */
  lemma DepositRunsToExit(a: Account, amount: real, fuel: nat)
    requires a.data.Branch? && AllFillable(a.data.children) && amount >= 0.0
    requires |a.data.children| <= fuel
    ensures var f := FixedPass(a.data.children, amount, fuel);
            var x := FlexLoop(f.entries, f.pool, fuel, fuel);
            !FlexLive(x.entries, x.pool)
  {
    var cs := a.data.children;
    var f := FixedPass(cs, amount, fuel);
    FixedPassFillable(cs, amount, fuel);
    FixedPassPoolNonNegative(cs, amount, fuel);
    LiveCountBound(f.entries);
    SameShapeAllSize(cs, f.entries);
    FlexLoopRunsToExit(f.entries, f.pool, fuel, fuel);
  }
}
