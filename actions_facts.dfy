/** What each action does to the tree as a whole. */
module ActionFacts {
  import opened Accounts
  import opened Navigation
  import opened Distribution
  import DistributionFacts
  import opened Actions

  /** New attaches the account as the last child of the first node named
      `parent`, leaving the earlier children in order, every node off the
      path to the parent unchanged and every existing entry's inflow as it
      was, and the tree's balance grows by the new account's balance; a leaf
      parent refuses. */
  lemma ApplyNew(a: Account, name: string, inflow: Inflow, parent: string, data: AccountType, date: Date, fuel: nat)
    requires Contains(a, parent)
    ensures var p := FindPath(a, parent).value;
            var old_ := At(a, p);
            var r := Applied(a, New(name, inflow, parent, data), fuel);
            if old_.data.Leaf? then r == Outcome(a, Err(LeafHasNoChildren))
            else
              r.status == Ok && ValidPath(r.account, p) &&
              At(r.account, p).name == parent &&
              At(r.account, p).data.Branch? && At(r.account, p).data.children == old_.data.children + [BranchEntry(Account(name, data), inflow)] &&
              r.account == ReplaceAt(a, p, WithChild(old_, BranchEntry(Account(name, data), inflow))) &&
              KeptOff(a, r.account, p) &&
              Balance(r.account) == Balance(a) + Balance(Account(name, data))
  {
    var p := FindPath(a, parent).value;
    var old_ := At(a, p);
    if old_.data.Branch? {
      var e := BranchEntry(Account(name, data), inflow);
      ReplaceAtFrame(a, p, WithChild(old_, e));
      ReplaceAtBalance(a, p, WithChild(old_, e));
      AppendChild(old_.name, old_.data.children, e, inflow);
    }
  }

  /** Withdraw lowers the first leaf named `account` by exactly `amount`,
      even below zero, and leaves every other node off its path unchanged; a
      branch refuses. */
  lemma ApplyWithdraw(a: Account, account: string, amount: real, date: Date, fuel: nat)
    requires Contains(a, account)
    ensures var p := FindPath(a, account).value;
            var old_ := At(a, p);
            var r := Applied(a, Withdraw(account, amount, date), fuel);
            if old_.data.Branch? then r == Outcome(a, Err(BranchWithdrawal))
            else
              r.status == Ok && SameShape(a, r.account) && ValidPath(r.account, p) &&
              At(r.account, p).data.Leaf? && At(r.account, p).data.balance == old_.data.balance - amount &&
              r.account == ReplaceAt(a, p, Debited(old_, amount)) && KeptOff(a, r.account, p) &&
              Balance(r.account) == Balance(a) - amount
  {
    var p := FindPath(a, account).value;
    var old_ := At(a, p);
    if old_.data.Leaf? {
      ReplaceAtFrame(a, p, Debited(old_, amount));
      ReplaceAtShape(a, p, Debited(old_, amount));
    }
  }

  /** A Deposit pays into the first node with the name, or with no name into
      the node the action is applied to; it changes only balances, leaves
      every node off the receiver's path unchanged, and the tree gains exactly
      the amount less what the receiving subtree dropped. */
  lemma ApplyDeposit(a: Account, target: Option<string>, amount: real, date: Date, fuel: nat)
    requires target.Some? ==> Contains(a, target.value)
    ensures var r := Applied(a, Deposit(target, amount, date), fuel);
            var receiver := if target.None? then a else At(a, FindPath(a, target.value).value);
            r.status == Ok && SameShape(a, r.account) &&
            (target.None? ==> r.account == Deposited(a, amount, fuel).account) &&
            (target.Some? ==>
               var p := FindPath(a, target.value).value;
               r.account == ReplaceAt(a, p, Deposited(receiver, amount, fuel).account) && KeptOff(a, r.account, p)) &&
            Balance(r.account) + Deposited(receiver, amount, fuel).dropped == Balance(a) + amount
  {
    if target.None? {
      DistributionFacts.DepositConserves(a, amount, fuel);
    } else {
      var p := FindPath(a, target.value).value;
      var d := Deposited(At(a, p), amount, fuel);
      ReplaceAtFrame(a, p, d.account);
      DistributionFacts.DepositConserves(At(a, p), amount, fuel);
      ReplaceAtBalance(a, p, d.account);
      ReplaceAtShape(a, p, d.account);
    }
  }

  /** A Deposit whose receiver is a leaf adds exactly the amount to the tree. */
  lemma ApplyDepositToLeaf(a: Account, target: string, amount: real, date: Date, fuel: nat)
    requires Contains(a, target) && At(a, FindPath(a, target).value).data.Leaf?
    ensures var r := Applied(a, Deposit(Some(target), amount, date), fuel);
            r.status == Ok && SameShape(a, r.account) && Balance(r.account) == Balance(a) + amount
  {
    ApplyDeposit(a, Some(target), amount, date, fuel);
    DistributionFacts.DepositLeaf(At(a, FindPath(a, target).value), amount, fuel);
  }

  /** A Transfer is a Withdraw followed, only when the Withdraw succeeded, by
      a Deposit into the tree the Withdraw left; it is not atomic. */
  lemma TransferIsWithdrawThenDeposit(a: Account, from: string, to: Option<string>, amount: real, date: Date, fuel: nat)
    ensures var w := Applied(a, Withdraw(from, amount, date), fuel);
            Applied(a, Transfer(from, to, amount, date), fuel) ==
              if w.status.Err? then w else Applied(w.account, Deposit(to, amount, date), fuel)
  {
  }

  /** A Transfer from a leaf to a name that is nowhere in the tree reports the
      missing name but keeps the withdrawal: the amount leaves the tree. */
  lemma TransferToMissingKeepsDebit(a: Account, from: string, to: string, amount: real, date: Date, fuel: nat)
    requires Contains(a, from) && At(a, FindPath(a, from).value).data.Leaf?
    requires !Contains(a, to)
    ensures var r := Applied(a, Transfer(from, Some(to), amount, date), fuel);
            r == Outcome(ReplaceAt(a, FindPath(a, from).value, Debited(At(a, FindPath(a, from).value), amount)),
                         Err(NotFound(to))) &&
            Balance(r.account) == Balance(a) - amount
  {
    var w := Applied(a, Withdraw(from, amount, date), fuel);
    TransferIsWithdrawThenDeposit(a, from, Some(to), amount, date, fuel);
    ApplyWithdraw(a, from, amount, date, fuel);
    FindPathShape(a, w.account, to);
  }

  /** A Transfer between two leaves succeeds and leaves the tree's balance
      unchanged: what the one leaf loses the other gains. */
  lemma TransferBetweenLeaves(a: Account, from: string, to: string, amount: real, date: Date, fuel: nat)
    requires Contains(a, from) && At(a, FindPath(a, from).value).data.Leaf?
    requires Contains(a, to) && At(a, FindPath(a, to).value).data.Leaf?
    ensures var r := Applied(a, Transfer(from, Some(to), amount, date), fuel);
            r.status == Ok && Balance(r.account) == Balance(a)
  {
    var w := Applied(a, Withdraw(from, amount, date), fuel);
    TransferIsWithdrawThenDeposit(a, from, Some(to), amount, date, fuel);
    WithdrawKeepsLeaf(a, from, to, amount, date, fuel);
    ApplyDepositToLeaf(w.account, to, amount, date, fuel);
  }

  /** A Withdraw from a leaf leaves every other leaf findable, and still a leaf. */
  lemma WithdrawKeepsLeaf(a: Account, from: string, to: string, amount: real, date: Date, fuel: nat)
    requires Contains(a, from) && At(a, FindPath(a, from).value).data.Leaf?
    requires Contains(a, to) && At(a, FindPath(a, to).value).data.Leaf?
    ensures var w := Applied(a, Withdraw(from, amount, date), fuel);
            w.status == Ok && Balance(w.account) == Balance(a) - amount &&
            Contains(w.account, to) && At(w.account, FindPath(w.account, to).value).data.Leaf?
  {
    var w := Applied(a, Withdraw(from, amount, date), fuel);
    ApplyWithdraw(a, from, amount, date, fuel);
    FindPathShape(a, w.account, to);
    LeafAtSameShape(a, w.account, FindPath(a, to).value);
  }

  /** Trees of the same shape have the same kind of node at every path. */
  lemma {:induction false} LeafAtSameShape(a: Account, b: Account, p: seq<nat>)
    requires SameShape(a, b) && ValidPath(a, p)
    ensures ValidPath(b, p) && At(a, p).data.Leaf? == At(b, p).data.Leaf?
    decreases |p|
  {
    if |p| > 0 {
      LeafAtSameShape(a.data.children[p[0]].account, b.data.children[p[0]].account, p[1..]);
    }
  }
}
