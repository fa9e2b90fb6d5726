/** The action engine: the four operations a caller submits against the tree,
    each resolving account names by lookup from the node it is applied to. */
module Actions {
  import opened Accounts
  import opened Navigation
  import Distribution

  /** A calendar date. Three actions carry one; nothing reads it. */
  datatype Date = Date(year: int, month: int, day: int)

  datatype Action =
    | New(name: string, inflow: Inflow, parent: string, data: AccountType)
    | Withdraw(account: string, amount: real, date: Date)
    | Deposit(target: Option<string>, amount: real, date: Date)
    | Transfer(from: string, to: Option<string>, amount: real, date: Date)

  datatype Outcome = Outcome(account: Account, status: Status)

  /** The tree after `action`, and whether it succeeded. A Transfer is a
      Withdraw followed by a Deposit on the tree the Withdraw left behind;
      a failed Deposit does not undo the Withdraw. */
  function Applied(a: Account, action: Action, fuel: nat): (r: Outcome)
    ensures !action.Transfer? && r.status.Err? ==> r.account == a
    ensures action.New? ==> (r.status == Err(NotFound(action.parent)) <==> !Contains(a, action.parent))
    ensures action.Withdraw? ==> (r.status == Err(NotFound(action.account)) <==> !Contains(a, action.account))
    ensures action.Deposit? && action.target.Some? ==>
      (r.status == Err(NotFound(action.target.value)) <==> !Contains(a, action.target.value))
    ensures action.Deposit? && action.target.None? ==> r.status == Ok
    ensures action.Withdraw? && r.status == Ok ==> Balance(r.account) == Balance(a) - action.amount
    decreases if action.Transfer? then 1 else 0
  {
    match action
    case New(name, inflow, parent, data) =>
      (match FindPath(a, parent)
       case None => Outcome(a, Err(NotFound(parent)))
       case Some(p) =>
         var target := At(a, p);
         if target.data.Leaf? then Outcome(a, Err(LeafHasNoChildren))
         else Outcome(ReplaceAt(a, p, WithChild(target, BranchEntry(Account(name, data), inflow))), Ok))
    case Withdraw(name, amount, _) =>
      (match FindPath(a, name)
       case None => Outcome(a, Err(NotFound(name)))
       case Some(p) =>
         var target := At(a, p);
         if target.data.Branch? then Outcome(a, Err(BranchWithdrawal))
         else
           ReplaceAtBalance(a, p, Debited(target, amount));
           Outcome(ReplaceAt(a, p, Debited(target, amount)), Ok))
    case Deposit(target, amount, _) =>
      (match target
       case None => Outcome(Distribution.Deposited(a, amount, fuel).account, Ok)
       case Some(name) =>
         match FindPath(a, name)
         case None => Outcome(a, Err(NotFound(name)))
         case Some(p) => Outcome(ReplaceAt(a, p, Distribution.Deposited(At(a, p), amount, fuel).account), Ok))
    case Transfer(from, to, amount, date) =>
      var w := Applied(a, Withdraw(from, amount, date), fuel);
      if w.status.Err? then w else Applied(w.account, Deposit(to, amount, date), fuel)
  }

  /** Resolves the action's names, then withdraws, attaches or deposits at
      the node found and writes it back. */
  method Apply(a: Account, action: Action, fuel: nat) returns (r: Account, status: Status)
    ensures Outcome(r, status) == Applied(a, action, fuel)
    decreases if action.Transfer? then 1 else 0
  {
    match action
    case New(name, inflow, parent, data) =>
      var found := FindChild(a, parent);
      if found.None? {
        return a, Err(NotFound(parent));
      }
      var p := found.value;
      var target;
      target, status := AddChild(At(a, p), Account(name, data), inflow);
      ReplaceAtSame(a, p);
      r := ReplaceAt(a, p, target);
    case Withdraw(name, amount, _) =>
      var found := FindChild(a, name);
      if found.None? {
        return a, Err(NotFound(name));
      }
      var p := found.value;
      var target;
      target, status := Accounts.Withdraw(At(a, p), amount);
      ReplaceAtSame(a, p);
      r := ReplaceAt(a, p, target);
    case Deposit(to, amount, _) =>
      if to.None? {
        r := Distribution.Deposit(a, amount, fuel);
        return r, Ok;
      }
      var found := FindChild(a, to.value);
      if found.None? {
        return a, Err(NotFound(to.value));
      }
      var p := found.value;
      var target := Distribution.Deposit(At(a, p), amount, fuel);
      r, status := ReplaceAt(a, p, target), Ok;
    case Transfer(from, to, amount, date) =>
      r, status := Apply(a, Withdraw(from, amount, date), fuel);
      if status.Err? {
        return;
      }
      r, status := Apply(r, Deposit(to, amount, date), fuel);
  }
}
