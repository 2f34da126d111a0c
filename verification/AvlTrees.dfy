/** Height-balanced search trees as values, with the place a walk down the tree has got to, and
    the rebalancing walk back up that insertion and deletion share. */
module AvlTrees {
  import opened Basics
  import opened Names
  import opened Tables

  /** The contents of a tree node: the node itself, its name and value, and its balance factor. */
  datatype Ent<N, V> = Ent(node: N, name: Name, vec: V, bal: int)

  datatype Tree<N, V> = Leaf | Node(left: Tree<N, V>, e: Ent<N, V>, right: Tree<N, V>)

  /** A node passed on the way down, whether the walk went right there, and the subtree it did not
      go into. */
  datatype Frame<N, V> = Frame(e: Ent<N, V>, right: bool, other: Tree<N, V>)

  /** A place in a tree: the frames passed, from the root on. */
  type Place<N, V> = seq<Frame<N, V>>

  function Height<N, V>(t: Tree<N, V>): (h: nat) {
    match t
    case Leaf => 0
    case Node(l, _, r) => 1 + Max(Height(l), Height(r))
  }

  /** The height of a node with a subtree of height h on one side. */
  function HeightOver<N, V>(h: nat, f: Frame<N, V>): nat {
    1 + Max(h, Height(f.other))
  }

  function Join<N, V>(f: Frame<N, V>, t: Tree<N, V>): Tree<N, V> {
    if f.right then Node(f.other, f.e, t) else Node(t, f.e, f.other)
  }

  /** The whole tree, with t at a place. */
  function Plug<N, V>(at: Place<N, V>, t: Tree<N, V>): Tree<N, V> {
    if at == [] then t else Plug(at[..|at| - 1], Join(at[|at| - 1], t))
  }

  lemma PlugNone<N, V>(t: Tree<N, V>)
    ensures Plug([], t) == t
  {
  }

  // ---- Names and values, in order ----

  function Pairs<N, V>(t: Tree<N, V>): seq<(Name, V)> {
    match t
    case Leaf => []
    case Node(l, e, r) => Pairs(l) + [(e.name, e.vec)] + Pairs(r)
  }

  /** The names and values before, and after, a place. */
  function Before<N, V>(at: Place<N, V>): seq<(Name, V)> {
    if at == [] then []
    else
      var f := at[|at| - 1];
      Before(at[..|at| - 1]) + (if f.right then Pairs(f.other) + [(f.e.name, f.e.vec)] else [])
  }

  function After<N, V>(at: Place<N, V>): seq<(Name, V)> {
    if at == [] then []
    else
      var f := at[|at| - 1];
      (if f.right then [] else [(f.e.name, f.e.vec)] + Pairs(f.other)) + After(at[..|at| - 1])
  }

  lemma {:induction false} PlugPairs<N, V>(at: Place<N, V>, t: Tree<N, V>)
    ensures Pairs(Plug(at, t)) == Before(at) + Pairs(t) + After(at)
  {
    if at != [] {
      var f := at[|at| - 1];
      PlugPairs(at[..|at| - 1], Join(f, t));
    }
  }

  // ---- Balance ----

  predicate Balanced<N, V>(t: Tree<N, V>) {
    match t
    case Leaf => true
    case Node(l, e, r) =>
      && e.bal == Height(r) - Height(l) && -1 <= e.bal <= 1
      && Balanced(l) && Balanced(r)
  }

  /** Every node at or above a place is in balance, if the subtree there has height h. */
  predicate BalancedAt<N, V>(at: Place<N, V>, h: nat) {
    at == [] ||
    var f := at[|at| - 1];
    && Balanced(f.other)
    && f.e.bal == (if f.right then h - Height(f.other) else Height(f.other) - h)
    && -1 <= f.e.bal <= 1
    && BalancedAt(at[..|at| - 1], HeightOver(h, f))
  }

  lemma JoinBalanced<N, V>(f: Frame<N, V>, t: Tree<N, V>)
    ensures Height(Join(f, t)) == 1 + Max(Height(t), Height(f.other))
    ensures Balanced(Join(f, t)) <==>
      && Balanced(t) && Balanced(f.other)
      && f.e.bal == (if f.right then Height(t) - Height(f.other) else Height(f.other) - Height(t))
      && -1 <= f.e.bal <= 1
  {
  }

  lemma {:induction false} PlugBalanced<N, V>(at: Place<N, V>, t: Tree<N, V>)
    ensures Balanced(Plug(at, t)) <==> Balanced(t) && BalancedAt(at, Height(t))
  {
    hide Balanced, Join, Height;
    if at != [] {
      JoinBalanced(at[|at| - 1], t);
      PlugBalanced(at[..|at| - 1], Join(at[|at| - 1], t));
    }
  }

  function Set<N, V>(e: Ent<N, V>, bal: int): Ent<N, V> {
    e.(bal := bal)
  }

  /** A node put right when its right side has become one higher, or its left side one lower,
      than it has recorded: unless it was at its limit already, it only records it. */
  function FixRight<N, V>(l: Tree<N, V>, e: Ent<N, V>, r: Tree<N, V>): Tree<N, V> {
    if e.bal == -1 then Node(l, Set(e, 0), r)
    else if e.bal == 0 then Node(l, Set(e, 1), r)
    else if e.bal == 1 && r.Node? then
      var Node(b, re, c) := r;
      if re.bal == 1 then Node(Node(l, Set(e, 0), b), Set(re, 0), c)
      else if re.bal == 0 then Node(Node(l, Set(e, 1), b), Set(re, -1), c)
      else if re.bal == -1 && b.Node? then
        Node(Node(l, Set(e, if b.e.bal < 1 then 0 else -1), b.left), Set(b.e, 0),
             Node(b.right, Set(re, if b.e.bal > -1 then 0 else 1), c))
      else Node(l, e, r)
    else Node(l, e, r)
  }

  /** The same when it is its left side that has become heavy. */
  function FixLeft<N, V>(l: Tree<N, V>, e: Ent<N, V>, r: Tree<N, V>): Tree<N, V> {
    if e.bal == 1 then Node(l, Set(e, 0), r)
    else if e.bal == 0 then Node(l, Set(e, -1), r)
    else if e.bal == -1 && l.Node? then
      var Node(a, le, b) := l;
      if le.bal == -1 then Node(a, Set(le, 0), Node(b, Set(e, 0), r))
      else if le.bal == 0 then Node(a, Set(le, 1), Node(b, Set(e, -1), r))
      else if le.bal == 1 && b.Node? then
        Node(Node(a, Set(le, if b.e.bal < 1 then 0 else -1), b.left), Set(b.e, 0),
             Node(b.right, Set(e, if b.e.bal > -1 then 0 else 1), r))
      else Node(l, e, r)
    else Node(l, e, r)
  }

  function Fix<N, V>(l: Tree<N, V>, e: Ent<N, V>, r: Tree<N, V>, heavy: bool): Tree<N, V> {
    if heavy then FixRight(l, e, r) else FixLeft(l, e, r)
  }

  /** The walk up: put right the node above, and go on unless its height is back to what it was,
      which after an insertion shows as a factor of 0, and after a deletion as any other. */
  function Rebalance<N, V>(at: Place<N, V>, t: Tree<N, V>, deleted: bool): Tree<N, V> {
    if at == [] then t
    else
      var f, up := at[|at| - 1], at[..|at| - 1];
      var fixed := FixFrame(f, t, deleted);
      if fixed.Node? && (fixed.e.bal == 0) != deleted then Plug(up, fixed)
      else Rebalance(up, fixed, deleted)
  }

  /** Coming from a side that grew makes that side heavy, coming from one that shrank the other. */
  function FixFrame<N, V>(f: Frame<N, V>, t: Tree<N, V>, deleted: bool): Tree<N, V> {
    if f.right then Fix(f.other, f.e, t, !deleted) else Fix(t, f.e, f.other, deleted)
  }

  lemma RotatedPairs<N, V>(a: Tree<N, V>, p: Ent<N, V>, b: Tree<N, V>, q: Ent<N, V>, c: Tree<N, V>)
    ensures Pairs(Node(Node(a, p, b), q, c)) == Pairs(Node(a, p, Node(b, q, c)))
  {
    var x, y, z := Pairs(a), Pairs(b), Pairs(c);
    var i, j := (p.name, p.vec), (q.name, q.vec);
    assert x + [i] + y + [j] + z == x + [i] + (y + [j] + z);
  }

  lemma TwicePairs<N, V>(a: Tree<N, V>, p: Ent<N, V>, b: Tree<N, V>, q: Ent<N, V>, c: Tree<N, V>, s: Ent<N, V>, d: Tree<N, V>)
    ensures Pairs(Node(Node(a, p, b), q, Node(c, s, d))) == Pairs(Node(a, p, Node(Node(b, q, c), s, d)))
    ensures Pairs(Node(Node(a, p, b), q, Node(c, s, d))) == Pairs(Node(Node(a, p, Node(b, q, c)), s, d))
  {
    RotatedPairs(a, p, b, q, Node(c, s, d));
    RotatedPairs(b, q, c, s, d);
    RotatedPairs(Node(a, p, b), q, c, s, d);
    RotatedPairs(a, p, b, q, c);
  }

  lemma FixRightPairs<N, V>(l: Tree<N, V>, e: Ent<N, V>, r: Tree<N, V>)
    ensures Pairs(FixRight(l, e, r)) == Pairs(Node(l, e, r))
  {
    if e.bal == 1 && r.Node? {
      var Node(b, re, c) := r;
      if re.bal != -1 {
        RotatedPairs(l, e, b, re, c);
      } else if b.Node? {
        TwicePairs(l, e, b.left, b.e, b.right, re, c);
      }
    }
  }

  lemma FixLeftPairs<N, V>(l: Tree<N, V>, e: Ent<N, V>, r: Tree<N, V>)
    ensures Pairs(FixLeft(l, e, r)) == Pairs(Node(l, e, r))
  {
    if e.bal == -1 && l.Node? {
      var Node(a, le, b) := l;
      if le.bal != 1 {
        RotatedPairs(a, le, b, e, r);
      } else if b.Node? {
        TwicePairs(a, le, b.left, b.e, b.right, e, r);
      }
    }
  }

  lemma FixPairs<N, V>(l: Tree<N, V>, e: Ent<N, V>, r: Tree<N, V>, heavy: bool)
    ensures Pairs(Fix(l, e, r, heavy)) == Pairs(Node(l, e, r))
  {
    FixRightPairs(l, e, r);
    FixLeftPairs(l, e, r);
  }

  lemma FramePairs<N, V>(f: Frame<N, V>, t: Tree<N, V>, deleted: bool)
    ensures Pairs(FixFrame(f, t, deleted)) == Pairs(Join(f, t))
  {
    if f.right { FixPairs(f.other, f.e, t, !deleted); } else { FixPairs(t, f.e, f.other, deleted); }
  }

  /** Rebalancing changes no name, no value, and not their order. */
  lemma {:induction false} RebalancePairs<N, V>(at: Place<N, V>, t: Tree<N, V>, deleted: bool)
    ensures Pairs(Rebalance(at, t, deleted)) == Before(at) + Pairs(t) + After(at)
  {
    hide FixFrame, Pairs, Before, After, Join;
    PlugPairs(at, t);
    if at != [] {
      var f, up := at[|at| - 1], at[..|at| - 1];
      var fixed := FixFrame(f, t, deleted);
      FramePairs(f, t, deleted);
      RebalancePairs(up, fixed, deleted);
      PlugPairs(up, fixed);
      PlugPairs(up, Join(f, t));
    }
  }

  /** What FixRight does to heights: one more for a side that grew, unless the node had one to
      spare; and after a rotation, as the new top's factor says. */
  lemma FixRightHeights<N, V>(l: Tree<N, V>, e: Ent<N, V>, r: Tree<N, V>)
    requires Balanced(l) && Balanced(r) && -1 <= e.bal <= 1
    requires Height(r) - Height(l) == e.bal + 1
    ensures var t := FixRight(l, e, r);
      && t.Node? && Balanced(t)
      && (e.bal < 1 ==> Height(t) == 1 + Max(Height(l), Height(r)))
      && (e.bal == 1 ==> Height(t) == Height(r) + (if t.e.bal == 0 then 0 else 1))
  {
    if e.bal == 1 {
      if r.e.bal == -1 { TwiceRightHeights(l, e, r); } else { OnceRightHeights(l, e, r); }
    }
  }

  lemma OnceRightHeights<N, V>(l: Tree<N, V>, e: Ent<N, V>, r: Tree<N, V>)
    requires Balanced(l) && Balanced(r) && r.Node? && e.bal == 1 && r.e.bal != -1
    requires Height(r) - Height(l) == e.bal + 1
    ensures var t := FixRight(l, e, r);
      t.Node? && Balanced(t) && Height(t) == Height(r) + (if t.e.bal == 0 then 0 else 1)
  {
    assert Height(r.right) == Height(l) + 1 && Balanced(r.left);
  }

  lemma TwiceRightHeights<N, V>(l: Tree<N, V>, e: Ent<N, V>, r: Tree<N, V>)
    requires Balanced(l) && Balanced(r) && r.Node? && e.bal == 1 && r.e.bal == -1
    requires Height(r) - Height(l) == e.bal + 1
    ensures var t := FixRight(l, e, r);
      t.Node? && Balanced(t) && Height(t) == Height(r) && t.e.bal == 0
  {
    var b := r.left;
    assert b.Node? && Balanced(b) && Height(b) == Height(l) + 1 && Height(r.right) == Height(l);
  }

  lemma FixLeftHeights<N, V>(l: Tree<N, V>, e: Ent<N, V>, r: Tree<N, V>)
    requires Balanced(l) && Balanced(r) && -1 <= e.bal <= 1
    requires Height(r) - Height(l) == e.bal - 1
    ensures var t := FixLeft(l, e, r);
      && t.Node? && Balanced(t)
      && (e.bal > -1 ==> Height(t) == 1 + Max(Height(l), Height(r)))
      && (e.bal == -1 ==> Height(t) == Height(l) + (if t.e.bal == 0 then 0 else 1))
  {
    if e.bal == -1 {
      if l.e.bal == 1 { TwiceLeftHeights(l, e, r); } else { OnceLeftHeights(l, e, r); }
    }
  }

  lemma OnceLeftHeights<N, V>(l: Tree<N, V>, e: Ent<N, V>, r: Tree<N, V>)
    requires Balanced(l) && Balanced(r) && l.Node? && e.bal == -1 && l.e.bal != 1
    requires Height(r) - Height(l) == e.bal - 1
    ensures var t := FixLeft(l, e, r);
      t.Node? && Balanced(t) && Height(t) == Height(l) + (if t.e.bal == 0 then 0 else 1)
  {
    assert Height(l.left) == Height(r) + 1 && Balanced(l.right);
  }

  lemma TwiceLeftHeights<N, V>(l: Tree<N, V>, e: Ent<N, V>, r: Tree<N, V>)
    requires Balanced(l) && Balanced(r) && l.Node? && e.bal == -1 && l.e.bal == 1
    requires Height(r) - Height(l) == e.bal - 1
    ensures var t := FixLeft(l, e, r);
      t.Node? && Balanced(t) && Height(t) == Height(l) && t.e.bal == 0
  {
    var b := l.right;
    assert b.Node? && Balanced(b) && Height(b) == Height(r) + 1 && Height(l.left) == Height(r);
  }

  lemma FrameHeights<N, V>(f: Frame<N, V>, t: Tree<N, V>, deleted: bool, h: nat)
    requires Balanced(t) && Balanced(f.other) && Height(t) == (if deleted then h - 1 else h + 1)
    requires f.e.bal == (if f.right then h - Height(f.other) else Height(f.other) - h) && -1 <= f.e.bal <= 1
    ensures var fixed, h1 := FixFrame(f, t, deleted), HeightOver(h, f);
      && fixed.Node? && Balanced(fixed)
      && Height(fixed) == if (fixed.e.bal == 0) != deleted then h1 else if deleted then h1 - 1 else h1 + 1
  {
    hide Balanced;
    if f.right {
      if deleted { FixLeftHeights(f.other, f.e, t); } else { FixRightHeights(f.other, f.e, t); }
    } else {
      if deleted { FixRightHeights(t, f.e, f.other); } else { FixLeftHeights(t, f.e, f.other); }
    }
  }

  /** The rebalanced tree is in balance, if the subtree at the place is one higher (inserted) or
      one lower (deleted) than every node above it has recorded. */
  lemma {:induction false} RebalanceBalanced<N, V>(at: Place<N, V>, t: Tree<N, V>, deleted: bool, h: nat)
    requires Balanced(t) && BalancedAt(at, h) && Height(t) == (if deleted then h - 1 else h + 1)
    ensures Balanced(Rebalance(at, t, deleted))
  {
    if at != [] {
      var f, up := at[|at| - 1], at[..|at| - 1];
      var fixed := FixFrame(f, t, deleted);
      var h1 := HeightOver(h, f);
      FrameHeights(f, t, deleted, h);
      if (fixed.e.bal == 0) != deleted {
        assert Height(fixed) == h1;
        PlugBalanced(up, fixed);
      } else {
        RebalanceBalanced(up, fixed, deleted, h1);
      }
    }
  }

  /** A node that has to be rotated has the children to do it with. */
  lemma RightFixable<N, V>(l: Tree<N, V>, e: Ent<N, V>, r: Tree<N, V>)
    requires Balanced(l) && Balanced(r) && -1 <= e.bal <= 1 && Height(r) - Height(l) == e.bal + 1
    ensures e.bal == 1 ==> r.Node? && -1 <= r.e.bal <= 1 && (r.e.bal == -1 ==> r.left.Node?)
  {
  }

  lemma LeftFixable<N, V>(l: Tree<N, V>, e: Ent<N, V>, r: Tree<N, V>)
    requires Balanced(l) && Balanced(r) && -1 <= e.bal <= 1 && Height(r) - Height(l) == e.bal - 1
    ensures e.bal == -1 ==> l.Node? && -1 <= l.e.bal <= 1 && (l.e.bal == 1 ==> l.right.Node?)
  {
  }

  lemma BalancedOver<N, V>(at: Place<N, V>, h: nat)
    requires BalancedAt(at, h) && at != []
    ensures var f, up := at[|at| - 1], at[..|at| - 1];
      && Balanced(f.other) && -1 <= f.e.bal <= 1
      && f.e.bal == (if f.right then h - Height(f.other) else Height(f.other) - h)
      && BalancedAt(up, HeightOver(h, f))
  {
  }

  // ---- Searching ----

  lemma StartSearch<N, V>(tree: Tree<N, V>, name: Name)
    ensures Below(Before<N, V>([]), name) && Above(After<N, V>([]), name) && Plug([], tree) == tree
  {
  }

  /** At a node of another name, the search turns to the side the name belongs on. */
  lemma Turn<N, V>(tree: Tree<N, V>, at: Place<N, V>, t: Tree<N, V>, name: Name, right: bool)
    requires Sorted(Pairs(tree)) && Plug(at, t) == tree && t.Node?
    requires Below(Before(at), name) && Above(After(at), name)
    requires Compare(name, t.e.name) != 0 && right == (Compare(name, t.e.name) > 0)
    ensures var f := Frame(t.e, right, if right then t.left else t.right);
      Below(Before(at + [f]), name) && Above(After(at + [f]), name)
  {
    var f := Frame(t.e, right, if right then t.left else t.right);
    assert (at + [f])[..|at|] == at;
    PlugPairs(at, t);
    SortedApart(Before(at), Pairs(t), After(at));
    var one := [(t.e.name, t.e.vec)];
    SortedAround(Pairs(t.left), t.e.name, t.e.vec, Pairs(t.right));
    CompareTotal(name, t.e.name);
    if right {
      BelowLess(Pairs(t.left), t.e.name, name);
      BelowConcat(Pairs(t.left), one, name);
      BelowConcat(Before(at), Pairs(t.left) + one, name);
      assert [] + After(at) == After(at);
    } else {
      AboveLess(Pairs(t.right), t.e.name, name);
      AboveConcat(one, Pairs(t.right), name);
      AboveConcat(one + Pairs(t.right), After(at), name);
      assert Before(at) + [] == Before(at);
    }
  }

  /** The pairs before and after a node. */
  function Left<N, V>(at: Place<N, V>, t: Tree<N, V>): seq<(Name, V)>
    requires t.Node?
  {
    Before(at) + Pairs(t.left)
  }

  function Right<N, V>(at: Place<N, V>, t: Tree<N, V>): seq<(Name, V)>
    requires t.Node?
  {
    Pairs(t.right) + After(at)
  }

  lemma NodePairs<N, V>(tree: Tree<N, V>, at: Place<N, V>, t: Tree<N, V>)
    requires Plug(at, t) == tree && t.Node?
    ensures Pairs(tree) == Left(at, t) + [(t.e.name, t.e.vec)] + Right(at, t)
    ensures Sorted(Pairs(tree)) ==> Below(Left(at, t), t.e.name) && Above(Right(at, t), t.e.name)
  {
    hide Plug, Sorted, Before, After;
    PlugPairs(at, t);
    var one := [(t.e.name, t.e.vec)];
    assert Before(at) + (Pairs(t.left) + one + Pairs(t.right)) + After(at) == Left(at, t) + one + Right(at, t);
    if Sorted(Pairs(tree)) {
      SortedAround(Left(at, t), t.e.name, t.e.vec, Right(at, t));
    }
  }

  lemma FoundHere<N, V>(tree: Tree<N, V>, at: Place<N, V>, t: Tree<N, V>, name: Name)
    requires Sorted(Pairs(tree)) && Plug(at, t) == tree && t.Node? && Compare(name, t.e.name) == 0
    ensures name == t.e.name && name in AsMap(Pairs(tree)) && AsMap(Pairs(tree))[name] == t.e.vec
  {
    CompareTotal(name, t.e.name);
    NodePairs(tree, at, t);
    AroundMap(Left(at, t), t.e.name, t.e.vec, Right(at, t));
  }

  lemma NotFound<N, V>(tree: Tree<N, V>, at: Place<N, V>, name: Name)
    requires Plug(at, Leaf) == tree && Below(Before(at), name) && Above(After(at), name)
    ensures name !in AsMap(Pairs(tree)) && Pairs(tree) == Before(at) + After(at)
  {
    PlugPairs(at, Leaf);
    assert Before(at) + [] + After(at) == Before(at) + After(at);
    OutOfSight(Before(at), name);
    OutOfSight(After(at), name);
    AsMapConcat(Before(at), After(at));
  }

  // ---- The nodes with what they hold ----

  ghost function Marks<N, V>(t: Tree<N, V>): set<(N, Name, V)> {
    match t
    case Leaf => {}
    case Node(l, e, r) => {(e.node, e.name, e.vec)} + Marks(l) + Marks(r)
  }

  ghost function PlaceMarks<N, V>(at: Place<N, V>): set<(N, Name, V)> {
    if at == [] then {}
    else
      var f := at[|at| - 1];
      {(f.e.node, f.e.name, f.e.vec)} + Marks(f.other) + PlaceMarks(at[..|at| - 1])
  }

  lemma {:induction false} PlugMarks<N, V>(at: Place<N, V>, t: Tree<N, V>)
    ensures Marks(Plug(at, t)) == Marks(t) + PlaceMarks(at)
  {
    if at != [] {
      PlugMarks(at[..|at| - 1], Join(at[|at| - 1], t));
    }
  }

  /** Rotations keep the marks, whatever becomes of the factors. */
  lemma OnceMarks<N, V>(a: Tree<N, V>, p: Ent<N, V>, b: Tree<N, V>, q: Ent<N, V>, c: Tree<N, V>, i: int, j: int)
    ensures Marks(Node(Node(a, Set(p, i), b), Set(q, j), c)) == Marks(Node(a, p, Node(b, q, c)))
    ensures Marks(Node(a, Set(p, i), Node(b, Set(q, j), c))) == Marks(Node(Node(a, p, b), q, c))
  {
  }

  lemma TwiceMarks<N, V>(a: Tree<N, V>, p: Ent<N, V>, b: Tree<N, V>, q: Ent<N, V>, c: Tree<N, V>, s: Ent<N, V>, d: Tree<N, V>,
                         i: int, j: int, k: int)
    ensures var t := Node(Node(a, Set(p, i), b), Set(q, j), Node(c, Set(s, k), d));
      Marks(t) == Marks(Node(a, p, Node(Node(b, q, c), s, d))) == Marks(Node(Node(a, p, Node(b, q, c)), s, d))
  {
    hide Set;
    MarksOf(a, Set(p, i), b);
    MarksOf(c, Set(s, k), d);
    MarksOf(Node(a, Set(p, i), b), Set(q, j), Node(c, Set(s, k), d));
    MarksOf(b, q, c);
    MarksOf(Node(b, q, c), s, d);
    MarksOf(a, p, Node(b, q, c));
    assert Set(p, i).node == p.node && Set(p, i).name == p.name && Set(p, i).vec == p.vec by { Kept(p, i); }
    assert Set(q, j).node == q.node && Set(q, j).name == q.name && Set(q, j).vec == q.vec by { Kept(q, j); }
    assert Set(s, k).node == s.node && Set(s, k).name == s.name && Set(s, k).vec == s.vec by { Kept(s, k); }
  }

  lemma Kept<N, V>(e: Ent<N, V>, bal: int)
    ensures Set(e, bal).node == e.node && Set(e, bal).name == e.name && Set(e, bal).vec == e.vec
  {
  }

  lemma MarksOf<N, V>(l: Tree<N, V>, e: Ent<N, V>, r: Tree<N, V>)
    ensures Marks(Node(l, e, r)) == {(e.node, e.name, e.vec)} + Marks(l) + Marks(r)
  {
  }

  lemma FixRightMarks<N, V>(l: Tree<N, V>, e: Ent<N, V>, r: Tree<N, V>)
    ensures Marks(FixRight(l, e, r)) == Marks(Node(l, e, r))
  {
    if e.bal == 1 && r.Node? {
      var Node(b, re, c) := r;
      if re.bal != -1 {
        OnceMarks(l, e, b, re, c, if re.bal == 1 then 0 else 1, if re.bal == 1 then 0 else -1);
      } else if b.Node? {
        TwiceMarks(l, e, b.left, b.e, b.right, re, c, if b.e.bal < 1 then 0 else -1, 0, if b.e.bal > -1 then 0 else 1);
      }
    }
  }

  lemma FixLeftMarks<N, V>(l: Tree<N, V>, e: Ent<N, V>, r: Tree<N, V>)
    ensures Marks(FixLeft(l, e, r)) == Marks(Node(l, e, r))
  {
    if e.bal == -1 && l.Node? {
      var Node(a, le, b) := l;
      if le.bal != 1 {
        OnceMarks(a, le, b, e, r, if le.bal == -1 then 0 else 1, if le.bal == -1 then 0 else -1);
      } else if b.Node? {
        TwiceMarks(a, le, b.left, b.e, b.right, e, r, if b.e.bal < 1 then 0 else -1, 0, if b.e.bal > -1 then 0 else 1);
      }
    }
  }

  lemma FixMarks<N, V>(l: Tree<N, V>, e: Ent<N, V>, r: Tree<N, V>, heavy: bool)
    ensures Marks(Fix(l, e, r, heavy)) == Marks(Node(l, e, r))
  {
    FixRightMarks(l, e, r);
    FixLeftMarks(l, e, r);
  }

  lemma {:induction false} RebalanceMarks<N, V>(at: Place<N, V>, t: Tree<N, V>, deleted: bool)
    ensures Marks(Rebalance(at, t, deleted)) == Marks(t) + PlaceMarks(at)
  {
    if at != [] {
      var f, up := at[|at| - 1], at[..|at| - 1];
      var fixed := FixFrame(f, t, deleted);
      assert Marks(fixed) == Marks(Join(f, t)) by {
        if f.right { FixMarks(f.other, f.e, t, !deleted); } else { FixMarks(t, f.e, f.other, deleted); }
      }
      RebalanceMarks(up, fixed, deleted);
      PlugMarks(up, fixed);
    }
  }

  // ---- The rightmost node of a tree ----

  /** The way from the top of a tree to its rightmost node. */
  ghost function RightPath<N, V>(t: Tree<N, V>): Place<N, V>
    requires t.Node?
  {
    if t.right.Leaf? then [] else [Frame(t.e, true, t.left)] + RightPath(t.right)
  }

  ghost function RightTop<N, V>(t: Tree<N, V>): (s: Tree<N, V>)
    requires t.Node?
    ensures s.Node? && s.right.Leaf?
  {
    if t.right.Leaf? then t else RightTop(t.right)
  }

  /** Nothing comes after the rightmost node but what comes after the tree. */
  lemma {:induction false} RightmostPairs<N, V>(at: Place<N, V>, t: Tree<N, V>)
    requires t.Node?
    ensures After(at + RightPath(t)) == After(at)
    ensures Plug(at + RightPath(t), RightTop(t)) == Plug(at, t)
    ensures Before(at + RightPath(t)) + Pairs(RightTop(t)) == Before(at) + Pairs(t)
    decreases t
  {
    if t.right.Leaf? {
      assert at + [] == at;
    } else {
      var f := Frame(t.e, true, t.left);
      assert (at + [f])[..|at|] == at;
      assert at + [f] + RightPath(t.right) == at + RightPath(t);
      assert [] + After(at) == After(at);
      RightmostPairs(at + [f], t.right);
      assert Before(at + [f]) == Before(at) + (Pairs(t.left) + [(t.e.name, t.e.vec)]);
    }
  }

  /** What is left when a node with both children takes the name and value of its predecessor, and
      that node gives its place to its left child. */
  lemma PredecessorOut<N, V>(at: Place<N, V>, t: Tree<N, V>)
    requires t.Node? && t.left.Node?
    ensures var s := RightTop(t.left);
      var e := t.e.(name := s.e.name, vec := s.e.vec);
      var at1 := at + [Frame(e, false, t.right)] + RightPath(t.left);
      && Before(at1) + Pairs(s.left) + After(at1) == Left(at, t) + Right(at, t)
      && Plug(at1, s) == Plug(at, Node(t.left, e, t.right))
  {
    var s := RightTop(t.left);
    var e := t.e.(name := s.e.name, vec := s.e.vec);
    var f := Frame(e, false, t.right);
    assert (at + [f])[..|at|] == at;
    RightmostPairs(at + [f], t.left);
    var at1 := at + [f] + RightPath(t.left);
    var one := [(s.e.name, s.e.vec)];
    assert Before(at) + [] == Before(at);
    assert Pairs(s) == Pairs(s.left) + one;
    calc {
      Left(at, t) + Right(at, t);
      (Before(at1) + (Pairs(s.left) + one)) + (Pairs(t.right) + After(at));
      Before(at1) + Pairs(s.left) + (one + Pairs(t.right) + After(at));
    }
  }

  // ---- A node without children ----

  function Single<N, V>(n: N, name: Name, v: V): Tree<N, V> {
    Node(Leaf, Ent(n, name, v, 0), Leaf)
  }

  lemma SingleHolds<N, V>(n: N, name: Name, v: V)
    ensures var t := Single(n, name, v);
      && Balanced(t) && Height(t) == Height<N, V>(Leaf) + 1 && Balanced<N, V>(Leaf) && Height<N, V>(Leaf) == 0
      && Pairs(t) == [(name, v)] && (n, name, v) in Marks(t)
  {
  }
}
