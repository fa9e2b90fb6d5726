# Budget tree: a Dafny model of `src/account.rs`

The system keeps a budget as a tree of accounts.
- A **leaf** holds a balance and a soft capacity (`max`).
- A **branch** holds an ordered list of entries. Each entry pairs a child account with an inflow policy: `Fixed(amount)` or `Flex(weight)`.

Four actions change the tree: `New`, `Withdraw`, `Deposit` and `Transfer`. Each names the accounts it touches, and those names are resolved by a pre-order search from the node the action is applied to.

Money paid into a branch is distributed in three passes:
1. A fixed pass. In stored order, each Fixed child takes the least of its fixed amount, its headroom (`max − balance`) and what is left.
2. A flex loop. Each round offers every Flex child `pool / total_flex` per unit of weight, bounded by its headroom and the pool. The loop repeats while `total_flex`, the sum of the weights of the Flex children below capacity, is not 0 and the pool exceeds 0.01. It tests the sum, so weights that cancel (1 and −1) stop it.
3. An overflow. What is left is split evenly over all children, ignoring capacity, when each share exceeds 0.01. Otherwise the leftover is not placed anywhere.

The model is written on values, one module per concern:

- `accounts.dfy` (`Accounts`) holds the data model and the derived quantities:
  - `Balance`, `Max`, `UntilMax`, `AtMax`, `GetFlex` and `TotalFlex`;
  - `SameShape`: two trees that differ only in leaf balances;
  - the two single-node changes, `Withdraw` and `AddChild`.
- `navigation.dfy` (`Navigation`) holds name lookup.
  - `FindPath` is the specification and `FindChild` the loop that computes it.
  - The node found is addressed by a path of child indices. The write-back through Rust's `&mut` is `ReplaceAt`.
- `distribution.dfy` (`Distribution`) holds the deposit.
  - `Deposited` and its passes are the specification.
  - `Deposit`, `MakeFixedDeposit`, `MakeFlexDeposit` and their loops are the algorithm, each proved to compute the specification.
  - Every specification function also reports `dropped`: the money the subtree's branches did not place. This makes the accounting exact. `dropped` is signed: it is negative when a branch child was handed a negative take it could not pass on (see below).
- `distribution_facts.dfy` (`DistributionFacts`) states what a deposit guarantees:
  - conservation of money through every pass;
  - which entries each pass leaves alone;
  - the take of each step;
  - capacity respected by the ordinary passes and not by the overflow.
- `flex_convergence.dfy` (`FlexConvergence`) covers when the flex loop stops on its own exit condition. For a branch of leaves whose Flex children have non-negative weights and are at or below capacity, it always does, within as many rounds as there are live Flex children: the water-filling argument. A child over capacity or a negative weight falls outside this argument.
- `actions.dfy` (`Actions`) holds the dispatcher.
  - `Applied` is the specification.
  - `Apply` is the method proved to compute it.
- `actions_facts.dfy` (`ActionFacts`) states what each action does to the whole tree. This includes the non-atomic `Transfer`.
- `scenarios.dfy` (`Scenarios`) works through small concrete trees: a two-round flex loop, an over-capacity Flex leaf, an over-capacity branch child under Flex and under Fixed inflow, and a leftover too small to place.

Amounts are exact `real`s. The Rust `while` loop has no bound, so each branch runs at most `fuel` flex rounds. `FlexConvergence.DepositRunsToExit` shows the bound does not bite under three conditions:
- the amount is not negative;
- every child of the branch is a leaf, and each Flex child has a non-negative weight and is at or below its max;
- `fuel` is at least the number of children.

The model follows the code in three behaviours that a reader of the code may not expect:
- **Over-capacity children are pulled down.**
  - A flex round runs `make_flex_deposit` on every Flex child, at capacity or not (src/account.rs:206-215); only the sum `total_flex` skips children at their max.
  - Its take, `min(per_flex × weight, available, until_max)`, is negative for a child above its max. A leaf child is pulled down to its max and the excess returns to the pool.
  - The fixed pass does the same to a Fixed child above its max (src/account.rs:195-204).
  - `DistributionFacts.FixedPassCapsLeaves`, `DistributionFacts.FlexPassCapsLeaves` and `Scenarios.OverfullFlexChildIsPulledDown` state this.
- **An over-capacity branch child creates money.**
  - A branch child above its max is also handed its negative headroom, and the pool is credited with it (src/account.rs:209-211).
  - A branch with no Fixed child places none of an amount of at most 0.01, a negative one included: the fixed pass does nothing, the flex loop runs only while the pool exceeds 0.01 (src/account.rs:95), and the even split only when the share does (src/account.rs:103). `DistributionFacts.FlexBranchPlacesNoSmallDeposit` states this.
  - So the nested deposit of that negative amount into a branch without Fixed children places nothing. No balance falls, yet the pool has grown.
  - With Fixed children it is different. A Fixed child above its max takes `min(fixed, until_max, available)` (src/account.rs:198), which can be below the amount, so the pool after the fixed pass can exceed 0.01. The flex loop and the overflow then place that pool.
  - A lone over-capacity Fixed leaf simply takes the amount: `Scenarios.OverfullFixedBranchGivesBack` pulls it down and drops nothing.
  - The model reports the created money as a negative `dropped`, so the accounting still balances.
  - `Scenarios.OverfullBranchPlacesNothing` and `Scenarios.OverfullBranchChildAddsMoney` exhibit a round that turns 20 into 25.
- **Small leftovers are dropped.**
  - A deposit is not always placed in full: a leftover whose even share is at most 0.01 is dropped (src/account.rs:101-105).
  - A deposit into an empty branch is dropped whole.
  - The model reports these amounts as `dropped`. `Scenarios.SmallLeftoverIsDropped` exhibits one.

## Model

| member | source | states |
|---|---|---|
| Accounts.NewRoot | src/account.rs:39-44 | the root is a branch named "root" with no children and balance 0 |
| Accounts.GetFlex | src/account.rs:183-193 | the flex weight is non-zero only for a Flex entry strictly below capacity, and then it is the entry's weight; a Flex entry not at max always contributes its weight, and a Fixed entry never contributes |
| Accounts.UntilMaxOfBranch | src/account.rs:179-181 | a branch's headroom equals the sum of its children's headrooms |
| Accounts.ChildrenUntilMaxSplits | src/account.rs:172-181 | summed headroom is summed capacity minus summed balance |
| Accounts.ChildrenBalanceSnoc | src/account.rs:79-82 | the children's balance, summed in stored order, grows by exactly the balance of an appended child |
| Accounts.ChildrenBalanceUpdate | src/account.rs:76-84 | replacing one child changes the sum of balances by exactly the difference of that child's balances |
| Accounts.ChildrenMaxSnoc | src/account.rs:172-177 | a branch's capacity grows by exactly the capacity of an appended child |
| Accounts.BalanceIsLeafSum | src/account.rs:76-84 | a subtree's balance is the total of its leaves' balances, and its capacity (`max`, src/account.rs:172-177) the total of its leaves' capacities |
| Accounts.ChildrenBalanceIsLeafSum | src/account.rs:79-82 | the children's summed balance and summed capacity are the totals over all leaves below them |
| Accounts.UntilMaxIsLeafHeadroom | src/account.rs:179-185 | an entry's headroom is its leaves' total capacity minus their total balance, and it is at its max exactly when its leaves hold at least their total capacity |
| Accounts.Debited | src/account.rs:112 | a debit keeps the leaf's shape and lowers its balance by exactly the amount |
| Accounts.WithChild | src/account.rs:142 | pushing an entry keeps the name and every earlier child in order, puts the entry last, and raises balance and capacity by the new child's |
| Accounts.AppendChild | src/account.rs:76-84 | adding a child raises a branch's balance by the child's balance and its capacity by the child's capacity |
| Accounts.Withdraw | src/account.rs:110-115 | on a leaf: success, the balance falls by exactly `amount` with no sufficiency check (it may go negative), nothing else changes; on a branch: a BranchWithdrawal error and the account unchanged |
| Accounts.AddChild | src/account.rs:138-146 | on a branch: success, exactly one entry (the new child with its inflow) is appended at the end, the existing children keep their order, and the balance grows by the child's balance; on a leaf: a LeafHasNoChildren error and the account unchanged |
| Navigation.FindPath | src/account.rs:117-136 | returns nothing exactly when no node of the subtree carries the name; otherwise a path to a node carrying it: the empty path when the node's own name matches, and otherwise a path into the first child whose subtree contains the name |
| Navigation.FindPathDescends | src/account.rs:124-133 | a match below the node is the step into the chosen child followed by exactly that child's own search result, so the match is the pre-order first at every level |
| Navigation.FindFrom | src/account.rs:124-133 | searching the children from index `i`: nothing exactly when none of those subtrees contains the name; otherwise a matching path through the first such child |
| Navigation.FindFromDescends | src/account.rs:124-133 | a match found from index `i` is the step into its child followed by exactly that child's own search result |
| Navigation.FindChild | src/account.rs:117-136 | the lookup loop (own name, then each child's name, then each child's subtree, in stored order) returns exactly the pre-order first match defined by `FindPath`, `None` exactly when the name is absent |
| Navigation.FindPathShape | src/account.rs:117-136 | lookup depends only on names and structure, so after a deposit or withdrawal every name resolves to the same node |
| Navigation.ReplaceAt | src/account.rs:46-74 | writing a node back through a path keeps the path valid and puts exactly the new node there; the root keeps its name |
| Navigation.ReplaceAtElsewhere | src/account.rs:46-74 | writing a node back through one path leaves every node on a path that diverges from it exactly as it was |
| Navigation.ReplaceAtInflow | src/account.rs:46-74 | writing a node back keeps the inflow of every entry on the way down to it and of every entry off its path |
| Navigation.ReplaceAtFrame | src/account.rs:46-74 | both at once: every node off the path is unchanged, and every entry not below the written node keeps its inflow |
| Navigation.ReplaceAtSame | src/account.rs:46-74 | writing back an unchanged node leaves the tree unchanged |
| Navigation.ReplaceAtBalance | src/account.rs:76-84 | the tree's balance changes by exactly the change in the balance of the node written back |
| Navigation.ReplaceAtShape | src/account.rs:46-74 | writing back a node of the same shape keeps the whole tree's shape |
| Distribution.FixedTake | src/account.rs:198 | a Fixed child's take is the least of its fixed amount, its headroom and the available pool |
| Distribution.FlexTake | src/account.rs:209 | a Flex child's take is the least of `per_flex × weight`, the available pool and its headroom |
| Distribution.Deposited | src/account.rs:86-108 | a deposit changes leaf balances only: names, capacities, children, order and inflows are kept |
| Distribution.FixedStep | src/account.rs:195-204 | one fixed step keeps the entry's inflow and the child's shape |
| Distribution.FlexStep | src/account.rs:206-215 | one flex step keeps the entry's inflow and the child's shape |
| Distribution.FixedPass | src/account.rs:91-92 | the fixed fold keeps the number, order, inflows and shapes of the children |
| Distribution.FlexPass | src/account.rs:97-98 | one flex fold keeps the number, order, inflows and shapes of the children |
| Distribution.FlexLoop | src/account.rs:94-100 | the flex loop keeps the number, order, inflows and shapes of the children |
| Distribution.Overflow | src/account.rs:101-105 | the overflow keeps the number, order, inflows and shapes of the children |
| Distribution.Share | src/account.rs:103 | paying the share into every child keeps the children's shapes |
| Distribution.MakeFixedDeposit | src/account.rs:195-204 | a Fixed child receives the fixed take and the pool returned is `available − take`; a Flex child is untouched and `available` is returned as is |
| Distribution.MakeFlexDeposit | src/account.rs:206-215 | a Flex child receives the flex take and the pool returned is `available − take`; a Fixed child is untouched and `available` is returned as is |
| Distribution.Deposit | src/account.rs:86-108 | computes the specified deposit; a leaf's balance rises by exactly `amount`; an empty branch is unchanged; only balances change |
| Distribution.FixedDeposits | src/account.rs:91-92 | the loop over the children computes the fixed fold's children and pool |
| Distribution.FlexDeposits | src/account.rs:94-100 | the `while` loop, recomputing `total_flex` after each round, computes the specified flex loop's children and pool |
| Distribution.FlexRound | src/account.rs:96-98 | the loop over the children computes one flex fold's children and pool |
| Distribution.Redistribute | src/account.rs:101-105 | the overflow loop computes the specified overflow: every child gets the share when it exceeds 0.01, no child changes otherwise or when the branch is empty |
| DistributionFacts.DepositConserves | src/account.rs:86-108 | balance after a deposit plus the money dropped equals balance before plus the amount |
| DistributionFacts.FixedStepConserves | src/account.rs:195-204 | what a fixed step adds to the child plus the pool it hands on plus what the child dropped is what it was given |
| DistributionFacts.FlexStepConserves | src/account.rs:206-215 | the same accounting for a flex step |
| DistributionFacts.FixedPassConserves | src/account.rs:91-92 | the fixed fold conserves money: children's balance plus pool plus dropped is unchanged |
| DistributionFacts.FlexPassConserves | src/account.rs:97-98 | one flex fold conserves money |
| DistributionFacts.FlexLoopConserves | src/account.rs:94-100 | the whole flex loop conserves money |
| DistributionFacts.OverflowConserves | src/account.rs:101-105 | the overflow conserves money; what it does not place stays in the pool |
| DistributionFacts.ShareConserves | src/account.rs:103 | paying the share into n children adds n shares to their balances, less what they dropped |
| DistributionFacts.FixedStepTakes | src/account.rs:195-204 | the pool handed on by a Fixed child is short by exactly a take equal to the least of the fixed amount, the headroom and the pool, and the child's subtree gains that take less what it dropped |
| DistributionFacts.FlexStepTakes | src/account.rs:206-215 | the same for a Flex child, with `per_flex × weight` in place of the fixed amount |
| DistributionFacts.FixedPassKeepsFlex | src/account.rs:202 | the fixed pass leaves every Flex entry exactly as it was |
| DistributionFacts.FixedPassKeepsTotalFlex | src/account.rs:91-94 | the fixed pass leaves the live flex weight `total_flex` as it was |
| DistributionFacts.FlexPassKeepsFixed | src/account.rs:213 | a flex round leaves every Fixed entry exactly as it was |
| DistributionFacts.FlexLoopKeepsFixed | src/account.rs:94-100 | the whole flex loop leaves every Fixed entry exactly as it was |
| DistributionFacts.FixedPassPoolNonNegative | src/account.rs:91-92 | from a non-negative pool the fixed pass never overdraws it |
| DistributionFacts.FlexPassPoolNonNegative | src/account.rs:97-98 | from a non-negative pool a flex round never overdraws it |
| DistributionFacts.FlexLoopPoolNonNegative | src/account.rs:94-100 | from a non-negative pool the flex loop never overdraws it |
| DistributionFacts.ShareAt | src/account.rs:103 | child `i` after the overflow is child `i` with the share deposited into it, inflow kept |
| DistributionFacts.OverflowSpreads | src/account.rs:101-105 | when the even share exceeds 0.01 every child, Fixed and Flex alike, receives exactly that share and nothing is left; otherwise, and for an empty branch, no child changes and the leftover is not placed |
| DistributionFacts.OverflowLeftover | src/account.rs:101-105 | what the overflow leaves unplaced is at most 0.01 per child, and not negative when the pool was not |
| DistributionFacts.FixedPassSkipsAllFlex | src/account.rs:91-92 | with no Fixed child the fixed pass changes nothing and hands the whole pool on |
| DistributionFacts.OverflowSkipsSmallPool | src/account.rs:101-105 | a leftover of at most 0.01, a negative one included, is not split: no child changes |
| DistributionFacts.FlexBranchPlacesNoSmallDeposit | src/account.rs:86-108 | an amount of at most 0.01, negative amounts included, paid into a branch with no Fixed child changes nothing and is dropped whole |
| DistributionFacts.LeafBranchDropped | src/account.rs:86-108 | a non-negative deposit into a non-empty branch of leaves drops between 0 and 0.01 per child |
| DistributionFacts.LeafBranchDeposit | src/account.rs:86-108 | such a deposit raises the branch's balance by the amount, less at most 0.01 per child |
| DistributionFacts.LeafPassesDropNothing | src/account.rs:91-100 | on leaf children the fixed pass and the flex loop drop nothing and leave a non-negative pool |
| DistributionFacts.FixedPassCapsLeaves | src/account.rs:195-204 | after the fixed pass every Fixed leaf child is at or below its max, whatever its balance was |
| DistributionFacts.FlexPassCapsLeaves | src/account.rs:206-215 | after a flex round every Flex leaf child is at or below its max, whatever its balance was |
| DistributionFacts.FlexLoopWithinCapacity | src/account.rs:94-100 | leaf children within capacity stay within capacity through the whole flex loop |
| DistributionFacts.DepositCapacity | src/account.rs:86-108 | if the leaf children start within capacity they end within it unless the overflow fires; when it fires each child receives the same share whatever its headroom |
| FlexConvergence.FlexLoopExit | src/account.rs:95 | the bounded loop ends on the Rust loop's exit condition exactly when the loop settles within its round budget |
| FlexConvergence.SettlesMonotone | src/account.rs:94-100 | a loop that settles within some number of rounds settles within any larger number |
| FlexConvergence.FillableFlex | src/account.rs:187-193 | for a leaf at or below capacity the flex weight is its weight while it is live and 0 otherwise |
| FlexConvergence.TotalFlexNonNegative | src/account.rs:94 | with non-negative weights `total_flex` is non-negative, and 0 when no child is live |
| FlexConvergence.FlexStepProgress | src/account.rs:206-215 | a flex step keeps a child fillable, never overdraws the pool, never makes a child live, and either fills the child, empties the pool or takes exactly `per_flex × weight` |
| FlexConvergence.FlexPassFillable | src/account.rs:97-98 | a flex round keeps all children fillable |
| FlexConvergence.FixedPassFillable | src/account.rs:91-92 | the fixed pass keeps all children fillable |
| FlexConvergence.DemandIsShareOfTotal | src/account.rs:96-98 | what a round offers in total is `per_flex × total_flex` |
| FlexConvergence.FlexPassProgress | src/account.rs:97-98 | on fillable children a flex round never overdraws the pool and never increases the number of live children, and either fills one, empties the pool, or lowers the pool by exactly the round's total offer `per_flex × total_flex` |
| FlexConvergence.RoundSpendsPool | src/account.rs:96 | with `per_flex = pool / total_flex` a round offers exactly the pool |
| FlexConvergence.RoundOutcome | src/account.rs:94-100 | a live round on fillable children either fills some live child to capacity or leaves the loop's exit condition true |
| FlexConvergence.WaterFillingSettles | src/account.rs:94-100 | on fillable children the loop settles within as many rounds as there are live Flex children |
| FlexConvergence.FlexLoopRunsToExit | src/account.rs:94-100 | given that many rounds, the bounded loop ends on the Rust loop's own exit condition |
| FlexConvergence.DepositRunsToExit | src/account.rs:86-108 | a non-negative deposit into a branch of fillable leaves, with at least one round per child, runs its flex loop to the loop's own exit condition |
| Actions.Applied | src/account.rs:46-74 | New, Withdraw and Deposit that fail leave the tree unchanged; each reports NotFound exactly when its name is absent; Deposit with no name always succeeds; a successful Withdraw lowers the tree's balance by the amount |
| Actions.Apply | src/account.rs:46-74 | the dispatcher (look up, change the node found, write it back) computes exactly the specified tree and status |
| ActionFacts.ApplyNew | src/account.rs:48-53 | New appends the account as the last child of the first node named `parent`, keeping the earlier children; the new tree is the old one with exactly that node replaced, every node off its path is unchanged, every existing entry keeps its inflow, and the tree's balance grows by the new account's balance; a leaf parent refuses with the tree unchanged |
| ActionFacts.ApplyWithdraw | src/account.rs:54-59 | Withdraw lowers the first leaf with the name by exactly the amount, even below zero; the new tree is the old one with exactly that leaf replaced, every node off its path is unchanged, and no structure changes; a branch refuses with the tree unchanged |
| ActionFacts.ApplyDeposit | src/account.rs:60-68 | Deposit succeeds and changes only balances; the new tree is the old one with the receiver replaced by its deposited form, every node off the receiver's path is unchanged, and the tree gains the amount less what the receiver dropped; with no name the receiver is the node the action is applied to |
| ActionFacts.ApplyDepositToLeaf | src/account.rs:60-68 | a Deposit whose receiver is a leaf adds exactly the amount to the tree |
| ActionFacts.TransferToMissingKeepsDebit | src/account.rs:69-72 | a Transfer from a leaf to an absent name reports NotFound yet keeps the withdrawal: the tree loses the amount |
| ActionFacts.TransferBetweenLeaves | src/account.rs:69-72 | a Transfer between two leaves succeeds and leaves the tree's balance unchanged |
| ActionFacts.WithdrawKeepsLeaf | src/account.rs:54-59 | a Withdraw lowers the tree's balance by the amount and leaves every other leaf findable and a leaf |
| Scenarios.LeafPairRound | src/account.rs:97-98 | a flex round over two weight-1 leaves adds each leaf's take to it and hands on the pool less both takes |
| Scenarios.ExampleFirstRound | src/account.rs:94-100 | with leaves x (10 of max 5) and y (0 of max 100) and pool 10, the first round pulls x down to 5, gives y 10 and leaves 5 |
| Scenarios.ExampleSecondRound | src/account.rs:94-100 | the second round gives the remaining 5 to y and the loop stops |
| Scenarios.OverfullFlexChildIsPulledDown | src/account.rs:206-215 | depositing 10 into that branch leaves x at 5 and y at 15, and drops nothing |
| Scenarios.OverfullBranchPlacesNothing | src/account.rs:86-108 | a -5 deposit into a branch whose only child, a Flex leaf, is 5 over its max changes nothing and reports all -5 as dropped |
| Scenarios.OverfullBranchChildAddsMoney | src/account.rs:206-215 | a flex round with pool 10 over that branch and an empty leaf credits the pool with the branch's -5 take, gives the leaf 10 and leaves 5: balances plus pool rise by 5 |
| Scenarios.OverfullFixedBranchGivesBack | src/account.rs:195-204 | the same over-capacity leaf under a Fixed(3) inflow takes the whole -5 in the fixed pass, is pulled down to its max and nothing is dropped |
| Scenarios.SmallLeftoverIsDropped | src/account.rs:101-105 | 0.005 paid into a branch whose only Flex child is at capacity is dropped entirely and the branch is unchanged |

## Left out

- `print_level` and the `Display` impl (src/account.rs:148-169) are not modelled. They only print the tree to standard output.
- IEEE `f64` arithmetic is not modelled. Amounts are exact reals, so there is no rounding, NaN or infinity. The one place where the code relies on them is the division by the child count of an empty branch (src/account.rs:102). That case is modelled explicitly as placing nothing, which is what the code does for every sign of the amount.
- The `NaiveDate` carried by Withdraw, Deposit and Transfer is a plain `Date` value that nothing reads, as in the code.
- Error messages are not modelled. The `format!` strings are replaced by the `Error` datatype: `NotFound` carries the missing name, and `LeafHasNoChildren` and `BranchWithdrawal` stand for the two refusals.
- In-place mutation is modelled as values.
  - `find_child` returns a mutable reference to the node it found; here that is a path of child indices.
  - The update through that reference is the replacement of the node at the path (`ReplaceAt`).
  - Ownership in the source rules out aliasing, so nothing is lost by this.
- Distribution.FlexLoop: the Rust loop has no bound, while each branch here runs at most `fuel` rounds. The bound is proved harmless only for branches whose children are leaves with non-negative Flex weights at or below capacity (`FlexConvergence.DepositRunsToExit`). For other trees the model may stop the loop earlier than the code, which may not stop at all.
- DistributionFacts.LeafBranchDropped: `dropped` is bounded (between 0 and 0.01 per child) only for a non-negative deposit into a branch whose children are leaves. For deeper trees it can be negative, as `Scenarios.OverfullBranchChildAddsMoney` shows, and no bound is stated.
- The `Action::Deposit` field `account` is named `target` here, because `Action::Withdraw` already has an `account` field of a different type.
