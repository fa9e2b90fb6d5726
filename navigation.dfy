/** Name lookup over the tree and write-back into the node it found.
    The node a lookup finds is addressed by its path: the child indices taken
    from the node the lookup started at. */
module Navigation {
  import opened Accounts

  datatype Option<T> = None | Some(value: T)

  /** Some node of the subtree, the subtree's own root included, is named `name`. */
  predicate Contains(a: Account, name: string)
  {
    a.name == name ||
    match a.data
    case Leaf(_, _) => false
    case Branch(cs) => exists i :: 0 <= i < |cs| && Contains(cs[i].account, name)
  }

  /** `path` leads from `a` to a node of its subtree. */
  predicate ValidPath(a: Account, path: seq<nat>)
    decreases |path|
  {
    |path| == 0 ||
    (a.data.Branch? && path[0] < |a.data.children| &&
     ValidPath(a.data.children[path[0]].account, path[1..]))
  }

  /** The node `path` leads to. */
  function At(a: Account, path: seq<nat>): Account
    requires ValidPath(a, path)
    decreases |path|
  {
    if |path| == 0 then a else At(a.data.children[path[0]].account, path[1..])
  }

  /** The tree with the node at `path` replaced by `b`. Every node off the
      path is kept, and so is the inflow of every entry on the way down to
      it and off it (`ReplaceAtFrame`). */
  function ReplaceAt(a: Account, path: seq<nat>, b: Account): (r: Account)
    requires ValidPath(a, path)
    ensures ValidPath(r, path) && At(r, path) == b
    ensures |path| > 0 ==> r.name == a.name
    decreases |path|
  {
    if |path| == 0 then b
    else
      var cs := a.data.children;
      var e := cs[path[0]];
      Account(a.name, Branch(cs[path[0] := BranchEntry(ReplaceAt(e.account, path[1..], b), e.inflow)]))
  }

  /** First node named `name` in pre-order: the node itself, then each child's
      subtree in stored order. */
  function FindPath(a: Account, name: string): (r: Option<seq<nat>>)
    ensures r.None? <==> !Contains(a, name)
    ensures r.Some? ==> ValidPath(a, r.value) && At(a, r.value).name == name
    ensures r.Some? && |r.value| > 0 ==>
      a.name != name &&
      forall j :: 0 <= j < r.value[0] ==> !Contains(a.data.children[j].account, name)
    decreases a
  {
    if a.name == name then Some([])
    else if a.data.Leaf? then None
    else FindFrom(a, name, 0)
  }

  /** First match among the subtrees of children `i`, `i + 1`, ... of `a`. */
  function FindFrom(a: Account, name: string, i: nat): (r: Option<seq<nat>>)
    requires a.data.Branch? && i <= |a.data.children|
    ensures r.None? <==> forall j :: i <= j < |a.data.children| ==> !Contains(a.data.children[j].account, name)
    ensures r.Some? ==>
      |r.value| > 0 && i <= r.value[0] && ValidPath(a, r.value) && At(a, r.value).name == name &&
      forall j :: i <= j < r.value[0] ==> !Contains(a.data.children[j].account, name)
    decreases a, |a.data.children| - i
  {
    var cs := a.data.children;
    if i == |cs| then None
    else
      match FindPath(cs[i].account, name)
      case Some(p) => Some([i] + p)
      case None => FindFrom(a, name, i + 1)
  }

  /** The lookup descends one level at a time: a match below the node is the
      step into the chosen child followed by exactly that child's own
      first match. */
  lemma FindPathDescends(a: Account, name: string)
    ensures var r := FindPath(a, name);
            r.Some? && |r.value| > 0 ==>
              a.data.Branch? && r.value[0] < |a.data.children| &&
              FindPath(a.data.children[r.value[0]].account, name) == Some(r.value[1..])
  {
    if a.name != name && a.data.Branch? {
      FindFromDescends(a, name, 0);
    }
  }

  lemma {:induction false} FindFromDescends(a: Account, name: string, i: nat)
    requires a.data.Branch? && i <= |a.data.children|
    ensures var r := FindFrom(a, name, i);
            r.Some? ==> r.value[0] < |a.data.children| &&
                        FindPath(a.data.children[r.value[0]].account, name) == Some(r.value[1..])
    decreases |a.data.children| - i
  {
    var cs := a.data.children;
    if i < |cs| {
      match FindPath(cs[i].account, name)
      case Some(p) =>
        assert ([i] + p)[1..] == p;
      case None =>
        FindFromDescends(a, name, i + 1);
    }
  }

  /** The lookup loop: a child whose own name matches is returned at once;
      otherwise its subtree is searched before the next sibling is tried. */
  method FindChild(a: Account, name: string) returns (r: Option<seq<nat>>)
    ensures r == FindPath(a, name)
    ensures r.None? <==> !Contains(a, name)
    ensures r.Some? ==> ValidPath(a, r.value) && At(a, r.value).name == name
    decreases a
  {
    if a.name == name {
      return Some([]);
    }
    match a.data
    case Leaf(_, _) =>
      return None;
    case Branch(cs) =>
      var i := 0;
      while i < |cs|
        invariant 0 <= i <= |cs|
        invariant FindFrom(a, name, i) == FindPath(a, name)
      {
        if cs[i].account.name == name {
          assert [i] + [] == [i];
          return Some([i]);
        }
        var found := FindChild(cs[i].account, name);
        if found.Some? {
          return Some([i] + found.value);
        }
        i := i + 1;
      }
      return None;
  }

  // ---------------------------------------------------------------------
  // Write-back through a path.

  /** Neither path is a prefix of the other: they part at some child. */
  predicate Apart(p: seq<nat>, q: seq<nat>)
    decreases |p|
  {
    |p| > 0 && |q| > 0 && (p[0] != q[0] || Apart(p[1..], q[1..]))
  }

  /** Writing a node back through `p` leaves every node off `p` as it was. */
  lemma {:induction false} ReplaceAtElsewhere(a: Account, p: seq<nat>, q: seq<nat>, b: Account)
    requires ValidPath(a, p) && ValidPath(a, q) && Apart(p, q)
    ensures ValidPath(ReplaceAt(a, p, b), q) && At(ReplaceAt(a, p, b), q) == At(a, q)
    decreases |p|
  {
    var cs := a.data.children;
    if p[0] == q[0] {
      ReplaceAtElsewhere(cs[p[0]].account, p[1..], q[1..], b);
    } else {
      var r := ReplaceAt(a, p, b);
      assert r.data.children[q[0]] == cs[q[0]];
    }
  }

  /** The inflow of the entry that the last step of `path` goes through. */
  function InflowAt(a: Account, path: seq<nat>): Inflow
    requires ValidPath(a, path) && |path| > 0
    decreases |path|
  {
    var e := a.data.children[path[0]];
    if |path| == 1 then e.inflow else InflowAt(e.account, path[1..])
  }

  /** Writing a node back through `p` keeps the inflow of every entry it does
      not replace: the entries on the way down to the node, and every entry
      off `p`. */
  lemma {:induction false} ReplaceAtInflow(a: Account, p: seq<nat>, q: seq<nat>, b: Account)
    requires ValidPath(a, p) && ValidPath(a, q) && |q| > 0 && (Apart(p, q) || q <= p)
    ensures ValidPath(ReplaceAt(a, p, b), q) && InflowAt(ReplaceAt(a, p, b), q) == InflowAt(a, q)
    decreases |p|
  {
    var cs := a.data.children;
    var r := ReplaceAt(a, p, b);
    if p[0] != q[0] {
      assert r.data.children[q[0]] == cs[q[0]];
    } else if |q| > 1 {
      assert Apart(p[1..], q[1..]) || q[1..] <= p[1..];
      ReplaceAtInflow(cs[p[0]].account, p[1..], q[1..], b);
    }
  }

  /** Every node of `a` off the path `p` is still in `b`, at the same place
      and unchanged, and every entry of `a` that is not below the end of `p`
      keeps its inflow. */
  ghost predicate KeptOff(a: Account, b: Account, p: seq<nat>)
  {
    (forall q :: ValidPath(a, q) && Apart(p, q) ==> ValidPath(b, q) && At(b, q) == At(a, q)) &&
    (forall q :: ValidPath(a, q) && |q| > 0 && (Apart(p, q) || q <= p) ==>
       ValidPath(b, q) && InflowAt(b, q) == InflowAt(a, q))
  }

  lemma ReplaceAtFrame(a: Account, p: seq<nat>, b: Account)
    requires ValidPath(a, p)
    ensures KeptOff(a, ReplaceAt(a, p, b), p)
  {
    forall q | ValidPath(a, q) && Apart(p, q)
      ensures ValidPath(ReplaceAt(a, p, b), q) && At(ReplaceAt(a, p, b), q) == At(a, q)
    {
      ReplaceAtElsewhere(a, p, q, b);
    }
    forall q | ValidPath(a, q) && |q| > 0 && (Apart(p, q) || q <= p)
      ensures ValidPath(ReplaceAt(a, p, b), q) && InflowAt(ReplaceAt(a, p, b), q) == InflowAt(a, q)
    {
      ReplaceAtInflow(a, p, q, b);
    }
  }

  /** Putting back what is already there changes nothing. */
  lemma {:induction false} ReplaceAtSame(a: Account, path: seq<nat>)
    requires ValidPath(a, path)
    ensures ReplaceAt(a, path, At(a, path)) == a
    decreases |path|
  {
    if |path| > 0 {
      var cs := a.data.children;
      ReplaceAtSame(cs[path[0]].account, path[1..]);
      assert cs[path[0] := cs[path[0]]] == cs;
    }
  }

  /** The tree's balance moves by exactly the change in the replaced node's balance. */
  lemma {:induction false} ReplaceAtBalance(a: Account, path: seq<nat>, b: Account)
    requires ValidPath(a, path)
    ensures Balance(ReplaceAt(a, path, b)) == Balance(a) - Balance(At(a, path)) + Balance(b)
    decreases |path|
  {
    if |path| > 0 {
      var cs := a.data.children;
      var e := cs[path[0]];
      ReplaceAtBalance(e.account, path[1..], b);
      ChildrenBalanceUpdate(cs, path[0], BranchEntry(ReplaceAt(e.account, path[1..], b), e.inflow));
    }
  }

  /** Replacing a node by one of the same shape keeps the whole tree's shape. */
  lemma {:induction false} ReplaceAtShape(a: Account, path: seq<nat>, b: Account)
    requires ValidPath(a, path) && SameShape(At(a, path), b)
    ensures SameShape(a, ReplaceAt(a, path, b))
    decreases |path|
  {
    if |path| > 0 {
      var cs := a.data.children;
      var e := cs[path[0]];
      ReplaceAtShape(e.account, path[1..], b);
      var ds := cs[path[0] := BranchEntry(ReplaceAt(e.account, path[1..], b), e.inflow)];
      forall i | 0 <= i < |cs| ensures SameShape(cs[i].account, ds[i].account) {
        if i != path[0] {
          SameShapeRefl(cs[i].account);
        }
      }
    }
  }

  /** Lookup sees names and structure only, so trees of the same shape give
      the same answer. */
  lemma {:induction false} FindPathShape(a: Account, b: Account, name: string)
    requires SameShape(a, b)
    ensures FindPath(a, name) == FindPath(b, name)
    decreases a
  {
    if a.name != name && a.data.Branch? {
      FindFromShape(a, b, name, 0);
    }
  }

  lemma {:induction false} FindFromShape(a: Account, b: Account, name: string, i: nat)
    requires SameShape(a, b) && a.data.Branch? && i <= |a.data.children|
    ensures b.data.Branch? && FindFrom(a, name, i) == FindFrom(b, name, i)
    decreases a, |a.data.children| - i
  {
    if i < |a.data.children| {
      FindPathShape(a.data.children[i].account, b.data.children[i].account, name);
      FindFromShape(a, b, name, i + 1);
    }
  }
}
