/**
 Depth-bounded traversal of a tree of blocks in a store whose contents nobody vouches for.

 A store is a function from block numbers to what a reader sees in that block: an unreadable
 block, a leaf with its items, or a branch with the numbers of its sub blocks. Only the depth
 bound keeps a traversal of such a store finite. The module says exactly when the traversal
 succeeds, what it yields, and that a store with a reachable cycle is always refused.
 */
module BoundedTree {
  import opened Collections

  /** The depth at which every recursion over blocks gives up. */
  const MAXIMUM_RECURSION_DEPTH: nat := 256

  datatype View<+T> = Unreadable | LeafView(items: seq<T>) | BranchView(children: seq<nat>)

  datatype Tree<T> = Leaf(items: seq<T>) | Branch(subtrees: seq<Tree<T>>)

  /**
   The items below block b, left to right. A branch is entered only with at least
   branchFuel units of fuel left; each level costs one unit.
   */
  function Visit<T>(view: nat -> View<T>, branchFuel: nat, fuel: nat, b: nat): Option<seq<T>>
    decreases fuel, 0, 0
  {
    if fuel == 0 then None
    else match view(b)
      case Unreadable => None
      case LeafView(items) => Some(items)
      case BranchView(children) =>
        if fuel < branchFuel then None else VisitAll(view, branchFuel, fuel - 1, children)
  }

  function VisitAll<T>(view: nat -> View<T>, branchFuel: nat, fuel: nat, bs: seq<nat>): Option<seq<T>>
    decreases fuel, 1, |bs|
  {
    if bs == [] then Some([])
    else match Visit(view, branchFuel, fuel, bs[0])
      case None => None
      case Some(first) =>
        match VisitAll(view, branchFuel, fuel, bs[1..])
        case None => None
        case Some(rest) => Some(first + rest)
  }

  // ---------- Trees, independently of any traversal ----------

  /** The store holds tree t at block b. */
  ghost predicate Represents<T(!new)>(view: nat -> View<T>, b: nat, t: Tree<T>)
    decreases t, 0
  {
    match t
    case Leaf(items) => view(b) == LeafView(items)
    case Branch(subtrees) => view(b).BranchView? && RepresentsAll(view, view(b).children, subtrees)
  }

  ghost predicate RepresentsAll<T(!new)>(view: nat -> View<T>, bs: seq<nat>, ts: seq<Tree<T>>)
    decreases ts, 1
  {
    |bs| == |ts| && forall i | 0 <= i < |ts| :: Represents(view, bs[i], ts[i])
  }

  ghost function Flatten<T>(t: Tree<T>): seq<T>
  {
    match t
    case Leaf(items) => items
    case Branch(subtrees) => FlattenAll(subtrees)
  }

  ghost function FlattenAll<T>(ts: seq<Tree<T>>): seq<T>
  {
    if ts == [] then [] else Flatten(ts[0]) + FlattenAll(ts[1..])
  }

  // ---------- Trees that are laid out in blocks ----------

  /** A tree of which each node has its block, and whatever else a leaf or a branch holds. */
  datatype Placed<L, B> =
    | LeafAt(block: nat, leaf: L)
    | BranchAt(block: nat, branch: B, subtrees: seq<Placed<L, B>>)

  function BlocksOf<L, B>(nodes: seq<Placed<L, B>>): (blocks: seq<nat>)
    ensures |blocks| == |nodes|
  {
    if nodes == [] then [] else [nodes[0].block] + BlocksOf(nodes[1..])
  }

  lemma {:induction false} BlockOfNode<L, B>(nodes: seq<Placed<L, B>>, i: nat)
    requires i < |nodes|
    ensures BlocksOf(nodes)[i] == nodes[i].block
    decreases |nodes|
  {
    if i > 0 {
      BlockOfNode(nodes[1..], i - 1);
    }
  }

  /** The tree alone, with the items of its leaves. */
  ghost function TreeOf<L, B, T>(items: L -> seq<T>, node: Placed<L, B>): Tree<T>
    decreases node, 0
  {
    match node
    case LeafAt(_, leaf) => Leaf(items(leaf))
    case BranchAt(_, _, subtrees) => Branch(TreesOf(items, subtrees))
  }

  ghost function TreesOf<L, B, T>(items: L -> seq<T>, nodes: seq<Placed<L, B>>): (trees: seq<Tree<T>>)
    ensures |trees| == |nodes|
    decreases nodes, 1
  {
    seq(|nodes|, i requires 0 <= i < |nodes| => TreeOf(items, nodes[i]))
  }

  // ---------- How much depth a tree takes ----------

  /** The tree fits in the given number of levels, a branch counting at least branchFuel. */
  ghost predicate Fits<T>(t: Tree<T>, branchFuel: nat, levels: nat)
    decreases t, 0
  {
    levels > 0 &&
    match t
    case Leaf(_) => true
    case Branch(subtrees) => levels >= branchFuel && FitsAll(subtrees, branchFuel, levels - 1)
  }

  ghost predicate FitsAll<T>(ts: seq<Tree<T>>, branchFuel: nat, levels: nat)
    decreases ts, 1
  {
    forall i | 0 <= i < |ts| :: Fits(ts[i], branchFuel, levels)
  }

  ghost function Depth<T>(t: Tree<T>): nat
    decreases t, 0
  {
    match t
    case Leaf(_) => 1
    case Branch(subtrees) => 1 + DepthAll(subtrees)
  }

  ghost function DepthAll<T>(ts: seq<Tree<T>>): nat
    decreases ts, 1, |ts|
  {
    if ts == [] then 0
    else
      var first, rest := Depth(ts[0]), DepthAll(ts[1..]);
      if first > rest then first else rest
  }

  /** When a branch costs no more than its own level, a tree fits exactly in as many levels as it is
      deep. */
  lemma {:induction false} FitsExactly<T>(t: Tree<T>, levels: nat)
    ensures Fits(t, 1, levels) <==> Depth(t) <= levels
    decreases t, 0, 0
  {
    if t.Branch? && levels > 0 {
      FitsAllExactly(t.subtrees, levels - 1);
    }
  }

  lemma {:induction false} FitsAllExactly<T>(ts: seq<Tree<T>>, levels: nat)
    ensures FitsAll(ts, 1, levels) <==> DepthAll(ts) <= levels
    decreases ts, 1, |ts|
  {
    if ts != [] {
      FitsExactly(ts[0], levels);
      FitsAllExactly(ts[1..], levels);
      FitsAllCons(ts, 1, levels);
    }
  }

  lemma FitsAllCons<T>(ts: seq<Tree<T>>, branchFuel: nat, levels: nat)
    requires ts != []
    ensures FitsAll(ts, branchFuel, levels) <==> Fits(ts[0], branchFuel, levels) && FitsAll(ts[1..], branchFuel, levels)
  {
    hide Fits;
    if Fits(ts[0], branchFuel, levels) && FitsAll(ts[1..], branchFuel, levels) {
      forall i | 0 <= i < |ts|
        ensures Fits(ts[i], branchFuel, levels)
      {
        assert i > 0 ==> ts[i] == ts[1..][i - 1];
      }
    }
  }

  // ---------- The traversal succeeds exactly on the finite trees that fit ----------

  lemma {:induction false} VisitComplete<T(!new)>(view: nat -> View<T>, branchFuel: nat, fuel: nat, b: nat, t: Tree<T>)
    requires Represents(view, b, t) && Fits(t, branchFuel, fuel)
    ensures Visit(view, branchFuel, fuel, b) == Some(Flatten(t))
    decreases t, 0, 0
  {
    if t.Branch? {
      VisitAllComplete(view, branchFuel, fuel - 1, view(b).children, t.subtrees);
    }
  }

  lemma {:induction false} VisitAllComplete<T(!new)>(view: nat -> View<T>, branchFuel: nat, fuel: nat, bs: seq<nat>,
                                              ts: seq<Tree<T>>)
    requires RepresentsAll(view, bs, ts) && FitsAll(ts, branchFuel, fuel)
    ensures VisitAll(view, branchFuel, fuel, bs) == Some(FlattenAll(ts))
    decreases ts, 1, |ts|
  {
    if ts != [] {
      assert Represents(view, bs[0], ts[0]) && Fits(ts[0], branchFuel, fuel);
      VisitComplete(view, branchFuel, fuel, bs[0], ts[0]);
      VisitAllComplete(view, branchFuel, fuel, bs[1..], ts[1..]);
    }
  }

  lemma {:induction false} VisitSound<T(!new)>(view: nat -> View<T>, branchFuel: nat, fuel: nat, b: nat)
    returns (t: Tree<T>)
    requires Visit(view, branchFuel, fuel, b).Some?
    ensures Represents(view, b, t) && Fits(t, branchFuel, fuel)
    decreases fuel, 0, 0
  {
    if view(b).LeafView? {
      t := Leaf(view(b).items);
    } else {
      var ts := VisitAllSound(view, branchFuel, fuel - 1, view(b).children);
      t := Branch(ts);
    }
  }

  lemma {:induction false} VisitAllSound<T(!new)>(view: nat -> View<T>, branchFuel: nat, fuel: nat, bs: seq<nat>)
    returns (ts: seq<Tree<T>>)
    requires VisitAll(view, branchFuel, fuel, bs).Some?
    ensures RepresentsAll(view, bs, ts) && FitsAll(ts, branchFuel, fuel)
    decreases fuel, 1, |bs|
  {
    if bs == [] {
      ts := [];
    } else {
      var first := VisitSound(view, branchFuel, fuel, bs[0]);
      var rest := VisitAllSound(view, branchFuel, fuel, bs[1..]);
      ts := [first] + rest;
      forall i | 0 <= i < |ts|
        ensures Represents(view, bs[i], ts[i]) && Fits(ts[i], branchFuel, fuel)
      {
        if i > 0 {
          assert bs[i] == bs[1..][i - 1] && ts[i] == rest[i - 1];
        }
      }
    }
  }

  /** A list of blocks is accepted exactly when each holds a finite tree of bounded depth; the
      result is then the concatenation of all their leaves, left to right. */
  lemma VisitAllExactly<T(!new)>(view: nat -> View<T>, branchFuel: nat, fuel: nat, bs: seq<nat>, items: seq<T>)
    ensures VisitAll(view, branchFuel, fuel, bs) == Some(items) <==>
            exists ts :: RepresentsAll(view, bs, ts) && FitsAll(ts, branchFuel, fuel) && FlattenAll(ts) == items
  {
    if VisitAll(view, branchFuel, fuel, bs) == Some(items) {
      var ts := VisitAllSound(view, branchFuel, fuel, bs);
      VisitAllComplete(view, branchFuel, fuel, bs, ts);
    }
    forall ts | RepresentsAll(view, bs, ts) && FitsAll(ts, branchFuel, fuel) && FlattenAll(ts) == items
      ensures VisitAll(view, branchFuel, fuel, bs) == Some(items)
    {
      VisitAllComplete(view, branchFuel, fuel, bs, ts);
    }
  }

  lemma VisitExactly<T(!new)>(view: nat -> View<T>, branchFuel: nat, fuel: nat, b: nat, items: seq<T>)
    ensures Visit(view, branchFuel, fuel, b) == Some(items) <==>
            exists t :: Represents(view, b, t) && Fits(t, branchFuel, fuel) && Flatten(t) == items
  {
    if Visit(view, branchFuel, fuel, b) == Some(items) {
      var t := VisitSound(view, branchFuel, fuel, b);
      VisitComplete(view, branchFuel, fuel, b, t);
    }
    forall t | Represents(view, b, t) && Fits(t, branchFuel, fuel) && Flatten(t) == items
      ensures Visit(view, branchFuel, fuel, b) == Some(items)
    {
      VisitComplete(view, branchFuel, fuel, b, t);
    }
  }

  // ---------- Cycles ----------

  /** Each block of the path is a branch that lists the next one among its sub blocks. */
  ghost predicate Path<T(!new)>(view: nat -> View<T>, p: seq<nat>)
  {
    forall i {:trigger p[i]} | 0 <= i < |p| - 1 :: view(p[i]).BranchView? && p[i + 1] in view(p[i]).children
  }

  lemma {:induction false} RepresentsUnique<T(!new)>(view: nat -> View<T>, b: nat, t: Tree<T>, u: Tree<T>)
    requires Represents(view, b, t) && Represents(view, b, u)
    ensures t == u
    decreases t
  {
    if t.Branch? {
      forall i | 0 <= i < |t.subtrees|
        ensures t.subtrees[i] == u.subtrees[i]
      {
        RepresentsUnique(view, view(b).children[i], t.subtrees[i], u.subtrees[i]);
      }
    }
  }

  lemma RepresentsAllUnique<T(!new)>(view: nat -> View<T>, bs: seq<nat>, ts: seq<Tree<T>>, us: seq<Tree<T>>)
    requires RepresentsAll(view, bs, ts) && RepresentsAll(view, bs, us)
    ensures ts == us
  {
    hide Represents;
    forall i | 0 <= i < |ts|
      ensures ts[i] == us[i]
    {
      assert Represents(view, bs[i], ts[i]) && Represents(view, bs[i], us[i]);
      RepresentsUnique(view, bs[i], ts[i], us[i]);
    }
  }

  ghost function Size<T>(t: Tree<T>): nat
  {
    match t
    case Leaf(_) => 1
    case Branch(subtrees) => 1 + SizeAll(subtrees)
  }

  ghost function SizeAll<T>(ts: seq<Tree<T>>): nat
  {
    if ts == [] then 0 else Size(ts[0]) + SizeAll(ts[1..])
  }

  lemma {:induction false} MemberSize<T>(ts: seq<Tree<T>>, i: nat)
    requires i < |ts|
    ensures Size(ts[i]) <= SizeAll(ts)
  {
    if i > 0 {
      MemberSize(ts[1..], i - 1);
    }
  }

  /** Following a path down from a tree reaches a smaller tree. */
  lemma {:induction false} Descend<T(!new)>(view: nat -> View<T>, p: seq<nat>, t: Tree<T>) returns (u: Tree<T>)
    requires p != [] && Path(view, p) && Represents(view, p[0], t)
    ensures Represents(view, p[|p| - 1], u)
    ensures if |p| == 1 then u == t else Size(u) < Size(t)
    decreases |p|
  {
    if |p| == 1 {
      u := t;
    } else {
      assert view(p[0]).BranchView? && p[0 + 1] in view(p[0]).children;
      var i :| 0 <= i < |view(p[0]).children| && view(p[0]).children[i] == p[1];
      MemberSize(t.subtrees, i);
      assert Path(view, p[1..]) by {
        forall j | 0 <= j < |p[1..]| - 1
          ensures view(p[1..][j]).BranchView? && p[1..][j + 1] in view(p[1..][j]).children
        {
          assert p[1..][j] == p[j + 1] && p[1..][j + 1] == p[j + 1 + 1];
        }
      }
      u := Descend(view, p[1..], t.subtrees[i]);
    }
  }

  /** A store in which some accepted block reaches a cycle does not exist: whatever the depth
      bound, a block from which a path leads into a cycle is refused. */
  lemma CycleIsRefused<T(!new)>(view: nat -> View<T>, branchFuel: nat, fuel: nat, p: seq<nat>, cycle: seq<nat>)
    requires p != [] && Path(view, p)
    requires |cycle| >= 2 && Path(view, cycle)
    requires cycle[0] == p[|p| - 1] && cycle[|cycle| - 1] == cycle[0]
    ensures Visit(view, branchFuel, fuel, p[0]).None?
  {
    if Visit(view, branchFuel, fuel, p[0]).Some? {
      var t := VisitSound(view, branchFuel, fuel, p[0]);
      var u := Descend(view, p, t);
      var v := Descend(view, cycle, u);
      RepresentsUnique(view, cycle[0], u, v);
      assert false;
    }
  }

  lemma {:induction false} RefusedMember<T(!new)>(view: nat -> View<T>, branchFuel: nat, fuel: nat, bs: seq<nat>,
                                           i: nat)
    requires i < |bs| && Visit(view, branchFuel, fuel, bs[i]).None?
    ensures VisitAll(view, branchFuel, fuel, bs).None?
    decreases |bs|
  {
    if i > 0 {
      RefusedMember(view, branchFuel, fuel, bs[1..], i - 1);
    }
  }

  // ---------- Stores that differ in what they let a reader see ----------

  /** A path leads from block b to block c. */
  ghost predicate Reaches<T(!new)>(view: nat -> View<T>, b: nat, c: nat) {
    exists p :: p != [] && Path(view, p) && p[0] == b && p[|p| - 1] == c
  }

  /** Every block that a path from block b leads to is kept. */
  ghost predicate AllKept<T(!new)>(view: nat -> View<T>, keep: nat -> bool, b: nat) {
    forall c | Reaches(view, b, c) :: keep(c)
  }

  lemma ReachesItself<T(!new)>(view: nat -> View<T>, b: nat)
    ensures Reaches(view, b, b)
  {
    assert Path(view, [b]);
  }

  lemma ReachesBelow<T(!new)>(view: nat -> View<T>, b: nat, child: nat, c: nat)
    requires view(b).BranchView? && child in view(b).children && Reaches(view, child, c)
    ensures Reaches(view, b, c)
  {
    var p :| p != [] && Path(view, p) && p[0] == child && p[|p| - 1] == c;
    var q := [b] + p;
    forall i {:trigger q[i]} | 0 <= i < |q| - 1
      ensures view(q[i]).BranchView? && q[i + 1] in view(q[i]).children
    {
      if i > 0 {
        assert q[i] == p[i - 1] && q[i + 1] == p[i - 1 + 1];
      }
    }
    assert Path(view, q);
  }

  lemma ReachesThroughChild<T(!new)>(view: nat -> View<T>, b: nat, c: nat) returns (child: nat)
    requires Reaches(view, b, c) && c != b
    ensures view(b).BranchView? && child in view(b).children && Reaches(view, child, c)
  {
    var p :| p != [] && Path(view, p) && p[0] == b && p[|p| - 1] == c;
    assert view(p[0]).BranchView? && p[0 + 1] in view(p[0]).children;
    child := p[1];
    var q := p[1..];
    forall i {:trigger q[i]} | 0 <= i < |q| - 1
      ensures view(q[i]).BranchView? && q[i + 1] in view(q[i]).children
    {
      assert q[i] == p[i + 1] && q[i + 1] == p[i + 1 + 1];
    }
    assert Path(view, q);
  }

  /** What lies below a block is kept if the block is, and what lies below its sub blocks. */
  lemma AllKeptExactly<T(!new)>(view: nat -> View<T>, keep: nat -> bool, b: nat)
    ensures AllKept(view, keep, b) <==>
            keep(b) && (view(b).BranchView? ==> forall child | child in view(b).children :: AllKept(view, keep, child))
  {
    hide Reaches;
    ReachesItself(view, b);
    if AllKept(view, keep, b) && view(b).BranchView? {
      forall child, c | child in view(b).children && Reaches(view, child, c)
        ensures keep(c)
      {
        ReachesBelow(view, b, child, c);
      }
    }
    if keep(b) && (view(b).BranchView? ==> forall child | child in view(b).children :: AllKept(view, keep, child)) {
      forall c | Reaches(view, b, c)
        ensures keep(c)
      {
        if c != b {
          var child := ReachesThroughChild(view, b, c);
          assert AllKept(view, keep, child);
        }
      }
    }
  }

  /** The store that shows only the blocks that are kept. */
  ghost predicate Restricts<T(!new)>(narrow: nat -> View<T>, wide: nat -> View<T>, keep: nat -> bool) {
    forall b: nat :: narrow(b) == if keep(b) then wide(b) else Unreadable
  }

  /** A block that is accepted in the whole store is accepted in the restricted one, with the same
      items, exactly when every block below it is kept. */
  lemma {:induction false} RestrictedVisit<T(!new)>(narrow: nat -> View<T>, wide: nat -> View<T>, keep: nat -> bool,
                                                    branchFuel: nat, fuel: nat, b: nat)
    requires Restricts(narrow, wide, keep) && Visit(wide, branchFuel, fuel, b).Some?
    ensures Visit(narrow, branchFuel, fuel, b) ==
            if AllKept(wide, keep, b) then Visit(wide, branchFuel, fuel, b) else None
    decreases fuel, 0, 0
  {
    hide AllKept;
    AllKeptExactly(wide, keep, b);
    assert narrow(b) == if keep(b) then wide(b) else Unreadable;
    if keep(b) && wide(b).BranchView? {
      RestrictedVisitAll(narrow, wide, keep, branchFuel, fuel - 1, wide(b).children);
    }
  }

  lemma {:induction false} RestrictedVisitAll<T(!new)>(narrow: nat -> View<T>, wide: nat -> View<T>, keep: nat -> bool,
                                                       branchFuel: nat, fuel: nat, bs: seq<nat>)
    requires Restricts(narrow, wide, keep) && VisitAll(wide, branchFuel, fuel, bs).Some?
    ensures VisitAll(narrow, branchFuel, fuel, bs) ==
            if forall b | b in bs :: AllKept(wide, keep, b) then VisitAll(wide, branchFuel, fuel, bs) else None
    decreases fuel, 1, |bs|
  {
    hide AllKept, Restricts;
    if bs != [] {
      RestrictedVisit(narrow, wide, keep, branchFuel, fuel, bs[0]);
      RestrictedVisitAll(narrow, wide, keep, branchFuel, fuel, bs[1..]);
      assert forall b :: b in bs <==> b == bs[0] || b in bs[1..];
    }
  }

  lemma UnreadableIsRefused<T(!new)>(view: nat -> View<T>, branchFuel: nat, fuel: nat, bs: seq<nat>)
    requires bs != [] && view(bs[0]).Unreadable?
    ensures VisitAll(view, branchFuel, fuel, bs).None?
  {
  }

  lemma {:induction false} AcceptedMember<T(!new)>(view: nat -> View<T>, branchFuel: nat, fuel: nat, bs: seq<nat>,
                                            b: nat)
    requires VisitAll(view, branchFuel, fuel, bs).Some? && b in bs
    ensures Visit(view, branchFuel, fuel, b).Some?
  {
    var i :| 0 <= i < |bs| && bs[i] == b;
    if Visit(view, branchFuel, fuel, b).None? {
      RefusedMember(view, branchFuel, fuel, bs, i);
    }
  }

  // ---------- Facts for the loops that carry out a traversal ----------

  lemma {:induction false} VisitAllSplit<T>(view: nat -> View<T>, branchFuel: nat, fuel: nat, xs: seq<nat>,
                                            ys: seq<nat>)
    ensures var x := VisitAll(view, branchFuel, fuel, xs);
            var y := VisitAll(view, branchFuel, fuel, ys);
            VisitAll(view, branchFuel, fuel, xs + ys) ==
            if x.Some? && y.Some? then Some(x.value + y.value) else None
    decreases |xs|
  {
    if xs == [] {
      assert xs + ys == ys;
      var tail := VisitAll(view, branchFuel, fuel, ys);
      if tail.Some? {
        assert [] + tail.value == tail.value;
      }
    } else {
      VisitAllSplit(view, branchFuel, fuel, xs[1..], ys);
      assert (xs + ys)[1..] == xs[1..] + ys;
      var first, rest, tail := Visit(view, branchFuel, fuel, xs[0]), VisitAll(view, branchFuel, fuel, xs[1..]),
        VisitAll(view, branchFuel, fuel, ys);
      if first.Some? && rest.Some? && tail.Some? {
        assert first.value + (rest.value + tail.value) == (first.value + rest.value) + tail.value;
      }
    }
  }

  lemma VisitAllSnoc<T>(view: nat -> View<T>, branchFuel: nat, fuel: nat, bs: seq<nat>, k: nat)
    requires k < |bs|
    ensures var x := VisitAll(view, branchFuel, fuel, bs[..k]);
            var y := Visit(view, branchFuel, fuel, bs[k]);
            VisitAll(view, branchFuel, fuel, bs[..k + 1]) ==
            if x.Some? && y.Some? then Some(x.value + y.value) else None
  {
    var one := [bs[k]];
    assert one[1..] == [];
    assert VisitAll(view, branchFuel, fuel, one[1..]) == Some([]);
    var y := Visit(view, branchFuel, fuel, bs[k]);
    if y.Some? {
      assert y.value + [] == y.value;
      assert VisitAll(view, branchFuel, fuel, one) == y;
    }
    assert bs[..k + 1] == bs[..k] + one;
    VisitAllSplit(view, branchFuel, fuel, bs[..k], one);
  }
}
