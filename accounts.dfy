/** The budget tree: accounts, the entries that attach a child to its parent,
    the inflow policy on each entry, and the quantities derived from them
    (aggregate balance, capacity, headroom, live flex weight). */
module Accounts {

  /** How a parent hands money to one child: a fixed amount per deposit,
      or a share proportional to a weight. */
  datatype Inflow = Fixed(amount: real) | Flex(weight: real)

  datatype Account = Account(name: string, data: AccountType)

  /** A leaf holds money and a soft capacity; a branch holds its children in
      stored order, and that order is the priority order of every pass. */
  datatype AccountType =
    | Leaf(balance: real, max: real)
    | Branch(children: seq<BranchEntry>)

  datatype BranchEntry = BranchEntry(account: Account, inflow: Inflow)

  /** The root every tree starts from: an empty branch named "root". */
  function NewRoot(): (r: Account)
    ensures r.name == "root" && r.data.Branch? && |r.data.children| == 0
    ensures Balance(r) == 0.0
  {
    Account("root", Branch([]))
  }

  function Min(x: real, y: real): (m: real)
    ensures m <= x && m <= y && (m == x || m == y)
  {
    if x <= y then x else y
  }

  // ---------------------------------------------------------------------
  // Size of a subtree: the termination measure of every walk that visits
  // children that have already been updated.

  function SumNat(s: seq<nat>): nat
  {
    if |s| == 0 then 0 else SumNat(s[..|s| - 1]) + s[|s| - 1]
  }

  /** Number of nodes in the subtree. */
  function Size(a: Account): (n: nat)
    ensures n >= 1
  {
    match a.data
    case Leaf(_, _) => 1
    case Branch(cs) => 1 + SumNat(seq(|cs|, i requires 0 <= i < |cs| => Size(cs[i].account)))
  }

  function Sizes(cs: seq<BranchEntry>): seq<nat>
  {
    seq(|cs|, i requires 0 <= i < |cs| => Size(cs[i].account))
  }

  /** Number of nodes below a sequence of entries. */
  function SizeAll(cs: seq<BranchEntry>): nat
  {
    SumNat(Sizes(cs))
  }

  lemma SizeOfBranch(a: Account)
    requires a.data.Branch?
    ensures Size(a) == 1 + SizeAll(a.data.children)
  {
  }

  lemma SizeAllLast(cs: seq<BranchEntry>)
    requires |cs| > 0
    ensures SizeAll(cs) == SizeAll(cs[..|cs| - 1]) + Size(cs[|cs| - 1].account)
  {
    assert Sizes(cs)[..|cs| - 1] == Sizes(cs[..|cs| - 1]);
  }

  lemma {:induction false} SizeAllElement(cs: seq<BranchEntry>, i: nat)
    requires i < |cs|
    ensures Size(cs[i].account) <= SizeAll(cs)
    decreases |cs|
  {
    SizeAllLast(cs);
    if i < |cs| - 1 {
      SizeAllElement(cs[..|cs| - 1], i);
    }
  }

  // ---------------------------------------------------------------------
  // Shape: everything a deposit or a withdrawal leaves alone.

  /** Same names, same leaf capacities, same children with the same inflows
      in the same order; only leaf balances may differ. */
  predicate SameShape(a: Account, b: Account)
  {
    a.name == b.name &&
    match a.data
    case Leaf(_, m) => b.data.Leaf? && b.data.max == m
    case Branch(cs) =>
      b.data.Branch? && |cs| == |b.data.children| &&
      forall i :: 0 <= i < |cs| ==>
        cs[i].inflow == b.data.children[i].inflow &&
        SameShape(cs[i].account, b.data.children[i].account)
  }

  predicate SameShapeAll(cs: seq<BranchEntry>, ds: seq<BranchEntry>)
  {
    |cs| == |ds| &&
    forall i :: 0 <= i < |cs| ==>
      cs[i].inflow == ds[i].inflow && SameShape(cs[i].account, ds[i].account)
  }

  lemma {:induction false} SameShapeSize(a: Account, b: Account)
    requires SameShape(a, b)
    ensures Size(a) == Size(b)
  {
    match a.data
    case Leaf(_, _) =>
    case Branch(cs) =>
      var ds := b.data.children;
      forall i | 0 <= i < |cs| ensures Size(cs[i].account) == Size(ds[i].account) {
        SameShapeSize(cs[i].account, ds[i].account);
      }
      assert Sizes(cs) == Sizes(ds);
  }

  lemma SameShapeAllSize(cs: seq<BranchEntry>, ds: seq<BranchEntry>)
    requires SameShapeAll(cs, ds)
    ensures SizeAll(cs) == SizeAll(ds)
  {
    forall i | 0 <= i < |cs| ensures Size(cs[i].account) == Size(ds[i].account) {
      SameShapeSize(cs[i].account, ds[i].account);
    }
    assert Sizes(cs) == Sizes(ds);
  }

  lemma {:induction false} SameShapeRefl(a: Account)
    ensures SameShape(a, a)
  {
    match a.data
    case Leaf(_, _) =>
    case Branch(cs) =>
      forall i | 0 <= i < |cs| ensures SameShape(cs[i].account, cs[i].account) {
        SameShapeRefl(cs[i].account);
      }
  }

  lemma SameShapeAllRefl(cs: seq<BranchEntry>)
    ensures SameShapeAll(cs, cs)
  {
    forall i | 0 <= i < |cs| ensures SameShape(cs[i].account, cs[i].account) {
      SameShapeRefl(cs[i].account);
    }
  }

  lemma {:induction false} SameShapeTrans(a: Account, b: Account, c: Account)
    requires SameShape(a, b) && SameShape(b, c)
    ensures SameShape(a, c)
  {
    match a.data
    case Leaf(_, _) =>
    case Branch(cs) =>
      var bs, ds := b.data.children, c.data.children;
      forall i | 0 <= i < |cs| ensures SameShape(cs[i].account, ds[i].account) {
        SameShapeTrans(cs[i].account, bs[i].account, ds[i].account);
      }
  }

  lemma SameShapeAllTrans(cs: seq<BranchEntry>, ds: seq<BranchEntry>, es: seq<BranchEntry>)
    requires SameShapeAll(cs, ds) && SameShapeAll(ds, es)
    ensures SameShapeAll(cs, es)
  {
    forall i | 0 <= i < |cs| ensures SameShape(cs[i].account, es[i].account) {
      SameShapeTrans(cs[i].account, ds[i].account, es[i].account);
    }
  }

  lemma SameShapeAllSnoc(cs: seq<BranchEntry>, ds: seq<BranchEntry>, c: BranchEntry, d: BranchEntry)
    requires SameShapeAll(cs, ds)
    requires c.inflow == d.inflow && SameShape(c.account, d.account)
    ensures SameShapeAll(cs + [c], ds + [d])
  {
  }

  // ---------------------------------------------------------------------
  // Derived quantities.

  /** Money held by the subtree: a leaf's own balance, a branch's sum over
      its children. */
  function Balance(a: Account): real
    decreases Size(a), 1
  {
    match a.data
    case Leaf(balance, _) => balance
    case Branch(cs) => SizeOfBranch(a); ChildrenBalance(cs)
  }

  /** Sum of the children's balances, added up in stored order. */
  function ChildrenBalance(cs: seq<BranchEntry>): real
    decreases SizeAll(cs), 2
  {
    if |cs| == 0 then 0.0
    else SizeAllLast(cs); ChildrenBalance(cs[..|cs| - 1]) + Balance(cs[|cs| - 1].account)
  }

  /** Capacity seen through an entry: a leaf's max, a branch's sum over its
      children's capacities. */
  function Max(e: BranchEntry): real
    decreases Size(e.account), 1
  {
    match e.account.data
    case Leaf(_, max) => max
    case Branch(cs) => SizeOfBranch(e.account); ChildrenMax(cs)
  }

  function ChildrenMax(cs: seq<BranchEntry>): real
    decreases SizeAll(cs), 2
  {
    if |cs| == 0 then 0.0
    else SizeAllLast(cs); ChildrenMax(cs[..|cs| - 1]) + Max(cs[|cs| - 1])
  }

  /** Headroom left below capacity; negative when the child is over it. */
  function UntilMax(e: BranchEntry): real
  {
    Max(e) - Balance(e.account)
  }

  predicate AtMax(e: BranchEntry)
  {
    UntilMax(e) <= 0.0
  }

  /** The weight an entry contributes to the current flex round: nothing for a
      Fixed entry or a Flex entry at capacity, its weight otherwise. */
  function GetFlex(e: BranchEntry): (w: real)
    ensures w != 0.0 ==> e.inflow.Flex? && UntilMax(e) > 0.0 && w == e.inflow.weight
    ensures e.inflow.Flex? && !AtMax(e) ==> w == e.inflow.weight
  {
    match e.inflow
    case Fixed(_) => 0.0
    case Flex(_) => if AtMax(e) then 0.0 else e.inflow.weight
  }

  /** Live flex weight of a branch, summed in stored order. */
  function TotalFlex(cs: seq<BranchEntry>): real
  {
    if |cs| == 0 then 0.0 else TotalFlex(cs[..|cs| - 1]) + GetFlex(cs[|cs| - 1])
  }

  /** Sum of the children's headrooms. */
  function ChildrenUntilMax(cs: seq<BranchEntry>): real
  {
    if |cs| == 0 then 0.0 else ChildrenUntilMax(cs[..|cs| - 1]) + UntilMax(cs[|cs| - 1])
  }

  /** A branch's headroom is the sum of its children's headrooms. */
  lemma {:induction false} UntilMaxOfBranch(e: BranchEntry)
    requires e.account.data.Branch?
    ensures UntilMax(e) == ChildrenUntilMax(e.account.data.children)
  {
    ChildrenUntilMaxSplits(e.account.data.children);
  }

  lemma {:induction false} ChildrenUntilMaxSplits(cs: seq<BranchEntry>)
    ensures ChildrenUntilMax(cs) == ChildrenMax(cs) - ChildrenBalance(cs)
    decreases |cs|
  {
    if |cs| > 0 {
      ChildrenUntilMaxSplits(cs[..|cs| - 1]);
    }
  }

  // ---------------------------------------------------------------------
  // The same quantities read off the leaves: what a subtree holds and can
  // hold is what its leaves hold and can hold.

  /** The leaves of the subtree, in pre-order. */
  function Leaves(a: Account): seq<AccountType>
    decreases Size(a), 1
  {
    match a.data
    case Leaf(_, _) => [a.data]
    case Branch(cs) => SizeOfBranch(a); ChildrenLeaves(cs)
  }

  function ChildrenLeaves(cs: seq<BranchEntry>): seq<AccountType>
    decreases SizeAll(cs), 2
  {
    if |cs| == 0 then []
    else SizeAllLast(cs); ChildrenLeaves(cs[..|cs| - 1]) + Leaves(cs[|cs| - 1].account)
  }

  /** Total balance of a list of leaves. */
  function Held(ls: seq<AccountType>): real
  {
    if |ls| == 0 then 0.0
    else Held(ls[..|ls| - 1]) + (if ls[|ls| - 1].Leaf? then ls[|ls| - 1].balance else 0.0)
  }

  /** Total capacity of a list of leaves. */
  function Capacity(ls: seq<AccountType>): real
  {
    if |ls| == 0 then 0.0
    else Capacity(ls[..|ls| - 1]) + (if ls[|ls| - 1].Leaf? then ls[|ls| - 1].max else 0.0)
  }

  lemma {:induction false} HeldConcat(xs: seq<AccountType>, ys: seq<AccountType>)
    ensures Held(xs + ys) == Held(xs) + Held(ys)
    ensures Capacity(xs + ys) == Capacity(xs) + Capacity(ys)
    decreases |ys|
  {
    if |ys| > 0 {
      var n := |ys| - 1;
      assert (xs + ys)[..|xs + ys| - 1] == xs + ys[..n];
      assert (xs + ys)[|xs + ys| - 1] == ys[n];
      HeldConcat(xs, ys[..n]);
    } else {
      assert xs + ys == xs;
    }
  }

  /** A subtree's balance is the total of its leaves' balances. */
  lemma {:induction false} BalanceIsLeafSum(a: Account)
    ensures Balance(a) == Held(Leaves(a))
    ensures Max(BranchEntry(a, Fixed(0.0))) == Capacity(Leaves(a))
    decreases Size(a), 1
  {
    match a.data
    case Leaf(_, _) =>
      assert [a.data][..0] == [];
    case Branch(cs) =>
      SizeOfBranch(a);
      ChildrenBalanceIsLeafSum(cs);
  }

  lemma {:induction false} ChildrenBalanceIsLeafSum(cs: seq<BranchEntry>)
    ensures ChildrenBalance(cs) == Held(ChildrenLeaves(cs))
    ensures ChildrenMax(cs) == Capacity(ChildrenLeaves(cs))
    decreases SizeAll(cs), 2
  {
    if |cs| > 0 {
      var n := |cs| - 1;
      SizeAllLast(cs);
      ChildrenBalanceIsLeafSum(cs[..n]);
      BalanceIsLeafSum(cs[n].account);
      assert Max(cs[n]) == Max(BranchEntry(cs[n].account, Fixed(0.0)));
      HeldConcat(ChildrenLeaves(cs[..n]), Leaves(cs[n].account));
    }
  }

  /** An entry's headroom is its leaves' total capacity less their total
      balance, and the entry is at its max exactly when its leaves hold at
      least their total capacity. */
  lemma UntilMaxIsLeafHeadroom(e: BranchEntry)
    ensures UntilMax(e) == Capacity(Leaves(e.account)) - Held(Leaves(e.account))
    ensures AtMax(e) <==> Held(Leaves(e.account)) >= Capacity(Leaves(e.account))
  {
    BalanceIsLeafSum(e.account);
    assert Max(e) == Max(BranchEntry(e.account, Fixed(0.0)));
  }

  // ---------------------------------------------------------------------
  // Sums over entries: appending and replacing one entry.

  lemma ChildrenBalanceSnoc(cs: seq<BranchEntry>, e: BranchEntry)
    ensures ChildrenBalance(cs + [e]) == ChildrenBalance(cs) + Balance(e.account)
  {
    assert (cs + [e])[..|cs|] == cs;
  }

  lemma {:induction false} ChildrenBalanceUpdate(cs: seq<BranchEntry>, i: nat, e: BranchEntry)
    requires i < |cs|
    ensures ChildrenBalance(cs[i := e]) == ChildrenBalance(cs) - Balance(cs[i].account) + Balance(e.account)
    decreases |cs|
  {
    var n := |cs| - 1;
    if i < n {
      assert cs[i := e][..n] == cs[..n][i := e];
      ChildrenBalanceUpdate(cs[..n], i, e);
    } else {
      assert cs[i := e][..n] == cs[..n];
    }
  }

  lemma ChildrenMaxSnoc(cs: seq<BranchEntry>, e: BranchEntry)
    ensures ChildrenMax(cs + [e]) == ChildrenMax(cs) + Max(e)
  {
    assert (cs + [e])[..|cs|] == cs;
  }

  /** Appending a child raises a branch's balance by the child's balance and
      its capacity by the child's capacity. */
  lemma AppendChild(name: string, cs: seq<BranchEntry>, e: BranchEntry, inflow: Inflow)
    ensures Balance(Account(name, Branch(cs + [e]))) == Balance(Account(name, Branch(cs))) + Balance(e.account)
    ensures Max(BranchEntry(Account(name, Branch(cs + [e])), inflow))
         == Max(BranchEntry(Account(name, Branch(cs)), inflow)) + Max(e)
  {
    ChildrenBalanceSnoc(cs, e);
    ChildrenMaxSnoc(cs, e);
  }

  // ---------------------------------------------------------------------
  // The two in-place changes of a single node.

  /** Why an operation was refused. */
  datatype Error =
    | NotFound(name: string)
    | LeafHasNoChildren
    | BranchWithdrawal

  datatype Status = Ok | Err(error: Error)

  /** A leaf after `amount` is taken from it. */
  function Debited(a: Account, amount: real): (r: Account)
    requires a.data.Leaf?
    ensures SameShape(a, r) && Balance(r) == Balance(a) - amount
  {
    Account(a.name, Leaf(a.data.balance - amount, a.data.max))
  }

  /** A branch with `e` added after its existing children. */
  function WithChild(a: Account, e: BranchEntry): (r: Account)
    requires a.data.Branch?
    ensures r.name == a.name && r.data.Branch? && |r.data.children| == |a.data.children| + 1
    ensures r.data.children[..|a.data.children|] == a.data.children && r.data.children[|a.data.children|] == e
    ensures Balance(r) == Balance(a) + Balance(e.account)
    ensures Max(BranchEntry(r, e.inflow)) == Max(BranchEntry(a, e.inflow)) + Max(e)
  {
    AppendChild(a.name, a.data.children, e, e.inflow);
    Account(a.name, Branch(a.data.children + [e]))
  }

  /** Takes `amount` from a leaf, with no check that it holds that much;
      a branch refuses. */
  method Withdraw(a: Account, amount: real) returns (r: Account, status: Status)
    ensures a.data.Leaf? ==> status == Ok && r == Debited(a, amount)
    ensures a.data.Branch? ==> status == Err(BranchWithdrawal) && r == a
    ensures SameShape(a, r)
    ensures status == Ok ==> Balance(r) == Balance(a) - amount
  {
    match a.data
    case Leaf(balance, max) =>
      r, status := Account(a.name, Leaf(balance - amount, max)), Ok;
    case Branch(_) =>
      SameShapeRefl(a);
      r, status := a, Err(BranchWithdrawal);
  }

  /** Attaches `child` with policy `inflow` after a branch's existing
      children; a leaf refuses. */
  method AddChild(a: Account, child: Account, inflow: Inflow) returns (r: Account, status: Status)
    ensures a.data.Leaf? ==> status == Err(LeafHasNoChildren) && r == a
    ensures a.data.Branch? ==> status == Ok && r == WithChild(a, BranchEntry(child, inflow))
    ensures status == Ok ==>
      r.name == a.name && |r.data.children| == |a.data.children| + 1 &&
      r.data.children[..|a.data.children|] == a.data.children &&
      r.data.children[|a.data.children|] == BranchEntry(child, inflow) &&
      Balance(r) == Balance(a) + Balance(child)
  {
    match a.data
    case Leaf(_, _) =>
      r, status := a, Err(LeafHasNoChildren);
    case Branch(children) =>
      r, status := Account(a.name, Branch(children + [BranchEntry(child, inflow)])), Ok;
      AppendChild(a.name, children, BranchEntry(child, inflow), Fixed(0.0));
  }
}
