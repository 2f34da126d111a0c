/** The shell's table of variables: a height-balanced tree of nodes with parent links, hanging
    from the left link of a header node. */
module VarTable {
  import opened Names
  import opened Tables
  import opened AvlTrees
  import opened VarCells

  /** Stripping the quote bit from every character of every word. */
  function TrimChar(c: int): int {
    if c < 0 then c + 0x8000 else c
  }

  function Trim(vec: Vec): (t: Vec)
    ensures |t| == |vec|
  {
    seq(|vec|, i requires 0 <= i < |vec| => seq(|vec[i]|, j requires 0 <= j < |vec[i]| => TrimChar(vec[i][j])))
  }

  /** A change to the table: setq, or unset with patterns. */
  datatype Change = Assign(name: Name, vec: Vec) | Unset(pats: seq<Name -> bool>)

  ghost function Changed(m: map<Name, Vec>, c: Change): map<Name, Vec> {
    match c
    case Assign(name, vec) => m[name := Trim(vec)]
    case Unset(pats) => map n | n in m && !Matched(pats, n) :: m[n]
  }

  ghost function ChangedAll(m: map<Name, Vec>, cs: seq<Change>): map<Name, Vec> {
    if cs == [] then m else Changed(ChangedAll(m, cs[..|cs| - 1]), cs[|cs| - 1])
  }

  class Table {
    const header: VarEnt

    ghost var cells: Cells    // the nodes allocated and not freed, and what they hold
    ghost var tree: VTree     // the tree they make up

    /** An empty table, on a header with nothing in it. */
    constructor (head: VarEnt)
      requires head.left == null && head.right == null && head.parent == null
      ensures Valid() && header == head && tree == Leaf && cells.Keys == {head}
    {
      header, tree := head, Leaf;
      cells := map n: VarEnt | n in {head} :: Cell(n.name, n.vec, n.bal, n.left, n.right, n.parent);
    }

    ghost predicate Held()
      reads `cells, cells.Keys
    {
      Holds(cells)
    }

    ghost predicate Valid()
      reads `cells, `tree, cells.Keys
    {
      && Held() && header in cells
      && At(cells, header, [], tree, cells[header].left)
      && cells.Keys == Nodes(tree) + {header}
      && Balanced(tree) && Sorted(Pairs(tree))
    }

    /** The table as a finite map from names to values. */
    ghost function Contents(): map<Name, Vec>
      reads `tree
    {
      AsMap(Pairs(tree))
    }

    lemma HeldAt(n: VarEnt)
      requires Held() && n in cells
      ensures cells[n] == Cell(n.name, n.vec, n.bal, n.left, n.right, n.parent)
    {
    }

    method PutLink(n: VarEnt, right: bool, x: VarEnt?)
      requires Held() && n in cells
      modifies n`left, n`right, this`cells
      ensures Held() && cells == SetLink(old(cells), n, right, x) && cells.Keys == old(cells.Keys)
    {
      if right {
        n.right := x;
      } else {
        n.left := x;
      }
      cells := SetLink(cells, n, right, x);
    }

    method PutParent(n: VarEnt, x: VarEnt?)
      requires Held() && n in cells
      modifies n`parent, this`cells
      ensures Held() && cells == SetParent(old(cells), n, x) && cells.Keys == old(cells.Keys)
    {
      n.parent := x;
      cells := SetParent(cells, n, x);
    }

    method PutBal(n: VarEnt, b: int)
      requires Held() && n in cells
      modifies n`bal, this`cells
      ensures Held() && cells == SetBal(old(cells), n, b) && cells.Keys == old(cells.Keys)
    {
      n.bal := b;
      cells := SetBal(cells, n, b);
    }

    /** The macro `rright`, but for assigning its result. */
    method RotateRight(p: VarEnt) returns (t: VarEnt)
      requires Held() && p in cells && cells[p].left != null && cells[p].left in cells && cells[p].left != p
      requires cells[cells[p].left].right != null ==> cells[cells[p].left].right in cells
      modifies this`cells, cells.Keys
      ensures Held() && cells == Rot(old(cells), p, true) && cells.Keys == old(cells.Keys) && t == old(cells[p].left)
    {
      hide Holds;
      HeldAt(p);
      t := p.left;
      PutParent(t, p.parent);
      HeldAt(t);
      PutLink(p, false, t.right);
      HeldAt(t);
      if t.right != null {
        PutParent(t.right, p);
      }
      PutLink(t, true, p);
      PutParent(p, t);
    }

    /** The macro `rleft`, but for assigning its result. */
    method RotateLeft(p: VarEnt) returns (t: VarEnt)
      requires Held() && p in cells && cells[p].right != null && cells[p].right in cells && cells[p].right != p
      requires cells[cells[p].right].left != null ==> cells[cells[p].right].left in cells
      modifies this`cells, cells.Keys
      ensures Held() && cells == Rot(old(cells), p, false) && cells.Keys == old(cells.Keys) && t == old(cells[p].right)
    {
      hide Holds;
      HeldAt(p);
      t := p.right;
      PutParent(t, p.parent);
      HeldAt(t);
      PutLink(p, true, t.left);
      HeldAt(t);
      if t.left != null {
        PutParent(t.left, p);
      }
      PutLink(t, false, p);
      PutParent(p, t);
    }

    /** A rotation with the link from above: the assignment of `rleft` or `rright` to it. */
    method Rotate(p: VarEnt, right: bool, pp: VarEnt, ff: bool, ghost at: VPlace,
                  ghost a: VTree, ghost q: VEnt, ghost b: VTree, ghost s: VEnt, ghost d: VTree) returns (t: VarEnt)
      requires Held() && At(cells, header, at, Make(s, !right, Make(q, !right, a, b), d), p)
      requires pp == Over(header, at) && ff == Side(at)
      modifies this`cells, cells.Keys
      ensures Held() && t == q.node && cells.Keys == old(cells.Keys)
      ensures At(cells, header, at, Make(q, !right, a, Make(s, !right, b, d)), t)
    {
      hide Holds, VarCells.At, Rot;
      RotAt(cells, header, at, p, right, a, q, b, s, d);
      if right {
        t := RotateRight(p);
      } else {
        t := RotateLeft(p);
      }
      PutLink(pp, ff, t);
    }

    method BalanceTop(p: VarEnt, bal: int, ghost at: VPlace, ghost t: VTree)
      requires Held() && At(cells, header, at, t, p) && t.Node?
      modifies this`cells, cells.Keys
      ensures Held() && cells.Keys == old(cells.Keys)
      ensures At(cells, header, at, Node(t.left, Set(t.e, bal), t.right), p)
    {
      hide Holds, VarCells.At;
      BalTop(cells, header, at, t, p, bal);
      PutBal(p, bal);
    }

    method BalanceSide(p: VarEnt, right: bool, bal: int, ghost at: VPlace, ghost t: VTree)
      requires Held() && At(cells, header, at, t, p) && t.Node? && (if right then t.right.Node? else t.left.Node?)
      modifies this`cells, cells.Keys
      ensures Held() && cells.Keys == old(cells.Keys)
      ensures var x, y := if right then t.right else t.left, if right then t.left else t.right;
        At(cells, header, at, Make(t.e, right, Node(x.left, Set(x.e, bal), x.right), y), p)
    {
      hide Holds, VarCells.At;
      BalSide(cells, header, at, t, p, right, bal);
      HeldAt(p);
      PutBal(if right then p.right else p.left, bal);
    }

    /** The right-heavy half of the body of balance. */
    method FixRightHeavy(p: VarEnt, pp: VarEnt, ff: bool, ghost at: VPlace, ghost t: VTree) returns (q: VarEnt)
      requires Held() && At(cells, header, at, t, p) && t.Node? && pp == Over(header, at) && ff == Side(at)
      requires Balanced(t.left) && Balanced(t.right) && -1 <= t.e.bal <= 1
      requires Height(t.right) - Height(t.left) == t.e.bal + 1
      modifies this`cells, cells.Keys
      ensures Held() && cells.Keys == old(cells.Keys)
      ensures At(cells, header, at, FixRight(t.left, t.e, t.right), q)
    {
      hide Holds, VarCells.At, Balanced, Height;
      ghost var Node(l, e, r) := t;
      RightFixable(l, e, r);
      Known(at, t, p);
      q := p;
      if p.bal == -1 {
        BalanceTop(p, 0, at, t);
      } else if p.bal == 0 {
        BalanceTop(p, 1, at, t);
      } else {
        ghost var Node(b, re, c) := r;
        if p.right.bal == 1 {
          q := Rotate(p, false, pp, ff, at, c, re, b, e, l);
          BalanceSide(q, false, 0, at, Node(Node(l, e, b), re, c));
          BalanceTop(q, 0, at, Node(Node(l, Set(e, 0), b), re, c));
        } else if p.right.bal == 0 {
          q := Rotate(p, false, pp, ff, at, c, re, b, e, l);
          BalanceSide(q, false, 1, at, Node(Node(l, e, b), re, c));
          BalanceTop(q, -1, at, Node(Node(l, Set(e, 1), b), re, c));
        } else {
          ghost var Node(b1, m, b2) := b;
          ghost var f := Frame(e, true, l);
          Descend(cells, header, at, t, p, true);
          HeldAt(p);
          var x := Rotate(p.right, true, p, true, at + [f], b1, m, b2, re, c);
          Ascend(at, f, Node(b1, m, Node(b2, re, c)), x);
          q := Rotate(p, false, pp, ff, at, Node(b2, re, c), m, b1, e, l);
          var qb := BalOf(q, at, Node(Node(l, e, b1), m, Node(b2, re, c)));
          BalanceSide(q, false, if qb < 1 then 0 else -1, at, Node(Node(l, e, b1), m, Node(b2, re, c)));
          ghost var e1 := Set(e, if qb < 1 then 0 else -1);
          BalanceSide(q, true, if qb > -1 then 0 else 1, at, Node(Node(l, e1, b1), m, Node(b2, re, c)));
          ghost var re1 := Set(re, if qb > -1 then 0 else 1);
          BalanceTop(q, 0, at, Node(Node(l, e1, b1), m, Node(b2, re1, c)));
        }
      }
    }

    method BalOf(q: VarEnt, ghost at: VPlace, ghost t: VTree) returns (b: int)
      requires Held() && At(cells, header, at, t, q) && t.Node?
      ensures b == t.e.bal
    {
      b := q.bal;
    }

    /** What a node at a place holds. */
    lemma Known(at: VPlace, t: VTree, p: VarEnt)
      requires Held() && At(cells, header, at, t, p) && t.Node?
      ensures p in cells && p == t.e.node && p.bal == t.e.bal && p.name == t.e.name && p.vec == t.e.vec
      ensures p.left == (if t.left.Node? then t.left.e.node else null)
      ensures p.right == (if t.right.Node? then t.right.e.node else null)
      ensures t.left.Node? ==> t.left.e.node.bal == t.left.e.bal
      ensures t.right.Node? ==> t.right.e.node.bal == t.right.e.bal
      ensures p.parent == Over(header, at)
    {
      assert TreeAt(cells, t.left, cells[p].left, p);
      assert TreeAt(cells, t.right, cells[p].right, p);
    }

    lemma Ascend(at: VPlace, f: Frame<VarEnt, Vec>, t: VTree, p: VarEnt)
      requires At(cells, header, at + [f], t, p)
      ensures At(cells, header, at, AvlTrees.Join(f, t), f.e.node)
    {
      assert (at + [f])[..|at|] == at;
      Rise(cells, header, at + [f], t, p);
    }

    /** The left-heavy half of the body of balance. */
    method FixLeftHeavy(p: VarEnt, pp: VarEnt, ff: bool, ghost at: VPlace, ghost t: VTree) returns (q: VarEnt)
      requires Held() && At(cells, header, at, t, p) && t.Node? && pp == Over(header, at) && ff == Side(at)
      requires Balanced(t.left) && Balanced(t.right) && -1 <= t.e.bal <= 1
      requires Height(t.right) - Height(t.left) == t.e.bal - 1
      modifies this`cells, cells.Keys
      ensures Held() && cells.Keys == old(cells.Keys)
      ensures At(cells, header, at, FixLeft(t.left, t.e, t.right), q)
    {
      hide Holds, VarCells.At, Balanced, Height;
      ghost var Node(l, e, r) := t;
      LeftFixable(l, e, r);
      Known(at, t, p);
      q := p;
      if p.bal == 1 {
        BalanceTop(p, 0, at, t);
      } else if p.bal == 0 {
        BalanceTop(p, -1, at, t);
      } else {
        ghost var Node(a, le, b) := l;
        if p.left.bal == -1 {
          q := Rotate(p, true, pp, ff, at, a, le, b, e, r);
          BalanceSide(q, true, 0, at, Node(a, le, Node(b, e, r)));
          BalanceTop(q, 0, at, Node(a, le, Node(b, Set(e, 0), r)));
        } else if p.left.bal == 0 {
          q := Rotate(p, true, pp, ff, at, a, le, b, e, r);
          BalanceSide(q, true, -1, at, Node(a, le, Node(b, e, r)));
          BalanceTop(q, 1, at, Node(a, le, Node(b, Set(e, -1), r)));
        } else {
          ghost var Node(b1, m, b2) := b;
          ghost var f := Frame(e, false, r);
          Descend(cells, header, at, t, p, false);
          HeldAt(p);
          var x := Rotate(p.left, false, p, false, at + [f], b2, m, b1, le, a);
          Ascend(at, f, Node(Node(a, le, b1), m, b2), x);
          q := Rotate(p, true, pp, ff, at, Node(a, le, b1), m, b2, e, r);
          var qb := BalOf(q, at, Node(Node(a, le, b1), m, Node(b2, e, r)));
          BalanceSide(q, false, if qb < 1 then 0 else -1, at, Node(Node(a, le, b1), m, Node(b2, e, r)));
          ghost var le1 := Set(le, if qb < 1 then 0 else -1);
          BalanceSide(q, true, if qb > -1 then 0 else 1, at, Node(Node(a, le1, b1), m, Node(b2, e, r)));
          ghost var e1 := Set(e, if qb > -1 then 0 else 1);
          BalanceTop(q, 0, at, Node(Node(a, le1, b1), m, Node(b2, e1, r)));
        }
      }
    }

    /** The body of balance for node p, come to from its side f. */
    method FixNode(p: VarEnt, f: bool, deleted: bool, pp: VarEnt, ff: bool, ghost fr: Frame<VarEnt, Vec>,
                   ghost up: VPlace, ghost t: VTree, ghost h: nat) returns (q: VarEnt)
      requires Held() && At(cells, header, up, AvlTrees.Join(fr, t), p) && f == fr.right
      requires pp == Over(header, up) && ff == Side(up)
      requires Balanced(t) && Balanced(fr.other) && Height(t) == (if deleted then h - 1 else h + 1)
      requires fr.e.bal == (if fr.right then h - Height(fr.other) else Height(fr.other) - h) && -1 <= fr.e.bal <= 1
      modifies this`cells, cells.Keys
      ensures Held() && cells.Keys == old(cells.Keys)
      ensures At(cells, header, up, FixFrame(fr, t, deleted), q)
    {
      hide Holds, VarCells.At, Balanced, Height;
      if f != deleted {
        q := FixRightHeavy(p, pp, ff, up, AvlTrees.Join(fr, t));
      } else {
        q := FixLeftHeavy(p, pp, ff, up, AvlTrees.Join(fr, t));
      }
    }

    /** One round of balance at node p: its parent, which of its sides p is on, and the node that
        has p's place after it. */
    method BalanceOne(p: VarEnt, f: bool, deleted: bool, ghost at: VPlace, ghost t: VTree, ghost h: nat, ghost hole: VarEnt?)
        returns (pp: VarEnt, ff: bool, q: VarEnt)
      requires Held() && At(cells, header, at, t, hole) && at != []
      requires p == Over(header, at) && f == Side(at) && p.parent != null
      requires Balanced(t) && BalancedAt(at, h) && Height(t) == (if deleted then h - 1 else h + 1)
      modifies this`cells, cells.Keys
      ensures Held() && cells.Keys == old(cells.Keys) && pp in cells && header in cells
      ensures var fr, up := at[|at| - 1], at[..|at| - 1];
        var fixed, h1 := FixFrame(fr, t, deleted), HeightOver(h, fr);
        && At(cells, header, up, fixed, q) && pp == Over(header, up) && ff == Side(up)
        && (pp.parent == null <==> up == [])
        && Balanced(fixed) && BalancedAt(up, h1) && fixed.Node? && q.bal == fixed.e.bal
        && Height(fixed) == if (fixed.e.bal == 0) != deleted then h1 else if deleted then h1 - 1 else h1 + 1
    {
      hide Holds, VarCells.At, Balanced, Height, BalancedAt, FixFrame, HeightOver;
      ghost var fr, up := at[|at| - 1], at[..|at| - 1];
      Rise(cells, header, at, t, hole);
      Known(up, AvlTrees.Join(fr, t), p);
      SideFound(cells, header, up, AvlTrees.Join(fr, t), p);
      BalancedOver(at, h);
      FrameHeights(fr, t, deleted, h);
      pp := p.parent;
      HeldAt(pp);
      ff := pp.right == p;
      q := FixNode(p, f, deleted, pp, ff, fr, up, t, h);
      Known(up, FixFrame(fr, t, deleted), q);
      OverKnown(up, FixFrame(fr, t, deleted), q);
    }

    /** balance: put right every node from p up whose side f has grown, or shrunk, by one. */
    method Balance(start: VarEnt, side: bool, deleted: bool, ghost at0: VPlace, ghost t0: VTree, ghost h0: nat, ghost hole: VarEnt?)
      requires Held() && At(cells, header, at0, t0, hole) && start == Over(header, at0) && side == Side(at0)
      requires Balanced(t0) && BalancedAt(at0, h0) && Height(t0) == (if deleted then h0 - 1 else h0 + 1)
      modifies this`cells, this`tree, cells.Keys
      ensures Held() && cells.Keys == old(cells.Keys) && header in cells
      ensures tree == Rebalance(at0, t0, deleted) && Balanced(tree)
      ensures At(cells, header, [], tree, cells[header].left)
    {
      hide Holds, VarCells.At, Balanced, Height, BalancedAt, FixFrame, HeightOver, Plug;
      RebalanceBalanced(at0, t0, deleted, h0);
      var p, f := start, side;
      ghost var at, t, link := at0, t0, hole;
      ghost var h: nat := h0;
      ghost var done := false;
      OverKnown(at, t, link);
      while p.parent != null
        invariant Held() && At(cells, header, at, t, link) && p == Over(header, at) && f == Side(at)
        invariant p in cells && (p.parent == null <==> at == []) && cells.Keys == old(cells.Keys)
        invariant Balanced(t) && BalancedAt(at, h) && Height(t) == (if deleted then h - 1 else h + 1)
        invariant Rebalance(at0, t0, deleted) == Rebalance(at, t, deleted)
        decreases |at|
      {
        var pp, ff, q := BalanceOne(p, f, deleted, at, t, h, link);
        h := HeightOver(h, at[|at| - 1]);
        at, t, link := at[..|at| - 1], FixFrame(at[|at| - 1], t, deleted), q;
        if (q.bal == 0) != deleted {
          done := true;
          break;
        }
        p, f := pp, ff;
      }
      RiseAll(cells, header, at, t, link);
      tree := Plug(at, t);
      if !done { PlugNone(t); }
    }

    lemma OverKnown(at: VPlace, t: VTree, p: VarEnt?)
      requires Held() && At(cells, header, at, t, p)
      ensures header in cells && Over(header, at) in cells
      ensures Over(header, at).parent == null <==> at == []
    {
      PlaceNodesIn(cells, header, at, p);
    }

    /** adrof1: the node with a name, if there is one; with its place, a ghost. */
    method Find(name: Name) returns (v: VarEnt?, ghost at: VPlace, ghost t: VTree)
      requires Valid()
      ensures At(cells, header, at, t, v) && Plug(at, t) == tree
      ensures v != null <==> name in Contents()
      ensures v != null ==> t.Node? && t.e.node == v && v in cells && v.name == name && v.vec == Contents()[name]
    {
      hide Holds, VarCells.At, Balanced, Sorted, Below, Above, AsMap, Pairs;
      Known0();
      v, at, t := header.left, [], tree;
      StartSearch(tree, name);
      while v != null
        invariant At(cells, header, at, t, v) && Plug(at, t) == tree && (v == null <==> t == Leaf)
        invariant Below(Before(at), name) && Above(After(at), name)
        decreases t
      {
        Known(at, t, v);
        var cmp := Compare(name, v.name);
        if cmp == 0 {
          FoundHere(tree, at, t, name);
          return;
        }
        Turn(tree, at, t, name, cmp > 0);
        Descend(cells, header, at, t, v, cmp > 0);
        HeldAt(v);
        ghost var fr := Frame(t.e, cmp > 0, if cmp > 0 then t.left else t.right);
        at, t := at + [fr], if cmp > 0 then t.right else t.left;
        if cmp < 0 {
          v := v.left;
        } else {
          v := v.right;
        }
        LeafNull(at, t, v);
      }
      NotFound(tree, at, name);
    }

    lemma Known0()
      requires Valid()
      ensures Held() && header in cells && cells[header].left == header.left
      ensures At(cells, header, [], tree, header.left) && (header.left == null <==> tree == Leaf)
      ensures Sorted(Pairs(tree)) && Balanced(tree) && cells.Keys == Nodes(tree) + {header}
    {
    }

    lemma LeafNull(at: VPlace, t: VTree, p: VarEnt?)
      requires At(cells, header, at, t, p)
      ensures p == null <==> t == Leaf
    {
    }

    // ---- setq ----

    method PutVec(n: VarEnt, vec: Vec)
      requires Held() && n in cells
      modifies n`vec, this`cells
      ensures Held() && cells == SetName(old(cells), n, n.name, vec) && cells.Keys == old(cells.Keys)
    {
      n.vec := vec;
      cells := SetName(cells, n, n.name, vec);
    }

    /** The way down setq takes: to the node with the name, or to the empty link it belongs at. */
    method Seek(name: Name) returns (p: VarEnt, f: bool, c: VarEnt?, ghost at: VPlace, ghost t: VTree)
      requires Valid()
      ensures At(cells, header, at, t, c) && Plug(at, t) == tree && p in cells
      ensures p == Over(header, at) && f == Side(at) && (c == null <==> t == Leaf)
      ensures c != null ==> t.e.node == c && t.e.name == name && c in cells
      ensures c == null ==> Below(Before(at), name) && Above(After(at), name)
    {
      hide Holds, VarCells.At, Balanced, Sorted, Below, Above, AsMap, Pairs;
      Known0();
      HeldAt(header);
      p, f := header, false;
      c, at, t := header.left, [], tree;
      StartSearch(tree, name);
      while c != null
        invariant At(cells, header, at, t, c) && Plug(at, t) == tree && (c == null <==> t == Leaf)
        invariant p in cells && p == Over(header, at) && f == Side(at)
        invariant Below(Before(at), name) && Above(After(at), name)
        decreases t
      {
        Known(at, t, c);
        var cmp := Compare(name, c.name);
        if cmp == 0 {
          CompareTotal(name, c.name);
          return;
        }
        Turn(tree, at, t, name, cmp > 0);
        Descend(cells, header, at, t, c, cmp > 0);
        HeldAt(c);
        p := c;
        f := cmp > 0;
        at, t := at + [Frame(t.e, f, if f then t.left else t.right)], if f then t.right else t.left;
        c := if f then p.right else p.left;
        LeafNull(at, t, c);
      }
    }

    /** Hanging a new node at the empty link the search ended at, and rebalancing. */
    method Add(name: Name, p: VarEnt, f: bool, ghost at: VPlace) returns (c: VarEnt)
      requires Valid() && At(cells, header, at, Leaf, null) && Plug(at, Leaf) == tree
      requires p in cells && p == Over(header, at) && f == Side(at)
      requires Below(Before(at), name) && Above(After(at), name)
      modifies this`cells, this`tree, cells.Keys
      ensures Valid() && fresh(c) && cells.Keys == old(cells.Keys) + {c}
      ensures c in Nodes(tree) && c.name == name
      ensures Pairs(tree) == Before(at) + [(name, [])] + After(at) && old(Pairs(tree)) == Before(at) + After(at)
    {
      hide Holds, VarCells.At, Balanced, BalancedAt, Height, Sorted, Below, Above, Rebalance, Single, PlaceNodes, Plug, Pairs, Nodes, Marks;
      Known0();
      NotFound(tree, at, name);
      PlugBalanced(at, Leaf);
      RiseAll(cells, header, at, Leaf, null);
      c := NewNode(name, p);
      Graft(old(cells), header, at, c, name);
      PutLink(p, f, c);
      ghost var t := Single(c, name, []);
      SingleHolds<VarEnt, Vec>(c, name, []);
      Rebalanced(cells, header, at, t, c, false);
      Balance(p, f, false, at, t, 0, c);
      Marked(c, name, []);
      SortedInsert(Before(at), name, [], After(at));
    }

    lemma Marked(n: VarEnt, name: Name, vec: Vec)
      requires Held() && header in cells && At(cells, header, [], tree, cells[header].left)
      requires (n, name, vec) in Marks(tree)
      ensures n in Nodes(tree) && n.name == name
    {
      MarkedCells(cells, tree, cells[header].left, header, (n, name, vec));
    }

    method NewNode(name: Name, p: VarEnt) returns (c: VarEnt)
      requires Held()
      modifies this`cells
      ensures Held() && fresh(c) && c !in old(cells)
      ensures cells == old(cells)[c := Cell(name, [], 0, null, null, p)] && cells.Keys == old(cells.Keys) + {c}
    {
      c := new VarEnt(name, p);
      cells := cells[c := Cell(name, [], 0, null, null, p)];
    }

    /** setq: bind a name to words. */
    method SetQ(name: Name, vec: Vec)
      requires Valid()
      modifies this`cells, this`tree, cells.Keys
      ensures Valid() && fresh(cells.Keys - old(cells.Keys)) && old(cells.Keys) <= cells.Keys
      ensures Contents() == old(Contents())[name := Trim(vec)]
      ensures |cells.Keys - old(cells.Keys)| == if name in old(Contents()) then 0 else 1
    {
      hide Holds, VarCells.At, Balanced, Sorted, Below, Above, AsMap, Pairs, Plug, Before, After;
      Known0();
      var p, f, c, at, t := Seek(name);
      if c == null {
        NotFound(tree, at, name);
        AroundMap(Before(at), name, [], After(at));
        c := Add(name, p, f, at);
        assert cells.Keys - old(cells.Keys) == {c};
      } else {
        CompareTotal(name, name);
        FoundHere(tree, at, t, name);
        assert cells.Keys - old(cells.Keys) == {};
        InTree(at, t, c);
      }
      Bind(c, vec);
    }

    lemma InTree(at: VPlace, t: VTree, p: VarEnt)
      requires Valid() && At(cells, header, at, t, p) && t.Node? && Plug(at, t) == tree
      ensures p in Nodes(tree) && p.name == t.e.name && p in cells
    {
      RiseAll(cells, header, at, t, p);
      PlaceNodesIn(cells, header, at, p);
    }

    /** Giving a node of the tree new words. */
    method Bind(c: VarEnt, vec: Vec)
      requires Valid() && c in Nodes(tree)
      modifies this`cells, this`tree, cells.Keys
      ensures Valid() && cells.Keys == old(cells.Keys)
      ensures Contents() == old(Contents())[old(c.name) := Trim(vec)]
    {
      hide Holds, VarCells.At, Balanced, Sorted, AsMap, Pairs, Plug, Before, After, PlaceNodes, Nodes, BalancedAt;
      Known0();
      ghost var at, t := PlaceOf(cells, header, [], tree, header.left, c);
      RiseAll(cells, header, at, t, c);
      Known(at, t, c);
      ghost var u := Node(t.left, t.e.(vec := Trim(vec)), t.right);
      NameTop(cells, header, at, t, c, c.name, Trim(vec));
      PlugNone(tree);
      Rebound(at, t, Trim(vec));
      PutVec(c, Trim(vec));
      tree := Plug(at, u);
      RiseAll(cells, header, at, u, c);
    }

    static lemma Rebound(at: VPlace, t: VTree, vec: Vec)
      requires t.Node? && Balanced(Plug(at, t)) && Sorted(Pairs(Plug(at, t)))
      ensures var u := Plug(at, Node(t.left, t.e.(vec := vec), t.right));
        && Balanced(u) && Sorted(Pairs(u))
        && AsMap(Pairs(u)) == AsMap(Pairs(Plug(at, t)))[t.e.name := vec]
    {
      hide Sorted, AsMap, Plug;
      var u := Node(t.left, t.e.(vec := vec), t.right);
      PlugBalanced(at, t);
      PlugBalanced(at, u);
      NodePairs(Plug(at, t), at, t);
      NodePairs(Plug(at, u), at, u);
      SortedApart(Left(at, t), [(t.e.name, t.e.vec)], Right(at, t));
      SortedInsert(Left(at, t), t.e.name, vec, Right(at, t));
      AroundMap(Left(at, t), t.e.name, t.e.vec, Right(at, t));
      AroundMap(Left(at, t), t.e.name, vec, Right(at, t));
    }

    // ---- unsetv1 ----

    method Free(n: VarEnt)
      requires Held() && n in cells
      modifies this`cells
      ensures Held() && cells == old(cells) - {n}
    {
      cells := cells - {n};
    }

    /** The second half of unsetv1: node p, with a child at most, gives its place up to that child c
        and is freed; then the tree is rebalanced. */
    method Drop(p: VarEnt, c: VarEnt?, ghost at: VPlace, ghost t: VTree)
      requires Held() && At(cells, header, at, t, p) && t.Node? && (t.left.Leaf? || t.right.Leaf?)
      requires p in cells && c == (if p.right == null then p.left else p.right)
      requires cells.Keys == Nodes(t) + PlaceNodes(header, at) && Balanced(Plug(at, t))
      modifies this`cells, this`tree, cells.Keys
      ensures Held() && header in cells && At(cells, header, [], tree, cells[header].left)
      ensures p in old(cells) && p != header && cells.Keys == old(cells.Keys) - {p} && cells.Keys == Nodes(tree) + {header}
      ensures Balanced(tree) && Pairs(tree) == Before(at) + Pairs(Only(t)) + After(at)
    {
      hide Holds, VarCells.At, Balanced, BalancedAt, Height, Rebalance, PlaceNodes, Plug, Pairs, Before, After, Nodes, Only;
      Known(at, t, p);
      HeldAt(p);
      Cut(cells, header, at, t, p);
      SideFound(cells, header, at, t, p);
      OffHeader(at, t, p);
      PlugBalanced(at, t);
      OnlyHeight(t);
      var pp := p.parent;
      HeldAt(pp);
      var f := pp.right == p;
      PutLink(pp, f, c);
      if c != null {
        PutParent(c, pp);
      }
      Free(p);
      Rebalanced(cells, header, at, Only(t), c, true);
      Balance(pp, f, true, at, Only(t), Height(t), c);
    }

    static lemma OnlyHeight(t: VTree)
      requires t.Node? && (t.left.Leaf? || t.right.Leaf?) && Balanced(t)
      ensures Balanced(Only(t)) && Height(Only(t)) == Height(t) - 1
    {
    }

    lemma OffHeader(at: VPlace, t: VTree, p: VarEnt)
      requires At(cells, header, at, t, p) && t.Node?
      ensures p != header && p in Nodes(t)
    {
      PlaceNodesIn(cells, header, at, p);
    }

    /** The node of the greatest name under the left link of p. */
    method Predecessor(p: VarEnt, ghost at: VPlace, ghost l: VTree) returns (c: VarEnt)
      requires Held() && At(cells, header, at, l, p) && l.Node?
      ensures c == RightTop(l).e.node && c in cells
      ensures c.name == RightTop(l).e.name && c.vec == RightTop(l).e.vec
    {
      hide Holds, VarCells.At;
      c := p;
      ghost var at1, s := at, l;
      Known(at1, s, c);
      while c.right != null
        invariant At(cells, header, at1, s, c) && s.Node? && RightTop(s) == RightTop(l) && c in cells
        invariant c == s.e.node && c.name == s.e.name && c.vec == s.e.vec
        invariant c.right == if s.right.Node? then s.right.e.node else null
        decreases s
      {
        Descend(cells, header, at1, s, c, true);
        HeldAt(c);
        at1, s := at1 + [Frame(s.e, true, s.left)], s.right;
        c := c.right;
        Known(at1, s, c);
      }
    }

    /** unsetv1: take a node's variable out of the table. One node is freed: it, or its predecessor,
        whose variable it then holds. */
    method UnsetV1(p: VarEnt) returns (ghost freed: VarEnt, ghost a: seq<(Name, Vec)>, ghost b: seq<(Name, Vec)>)
      requires Valid() && p in cells && p != header
      modifies this`cells, this`tree, cells.Keys
      ensures Valid() && freed in old(cells) && cells.Keys == old(cells.Keys) - {freed}
      ensures old(Pairs(tree)) == a + [(old(p.name), old(p.vec))] + b && Pairs(tree) == a + b
      ensures Contents() == old(Contents()) - {old(p.name)} && old(p.name) in old(Contents())
      ensures old(Contents())[old(p.name)] == old(p.vec)
    {
      hide Holds, VarCells.At, Balanced, BalancedAt, PlaceNodes, Plug, Pairs, Before, After, Nodes, Sorted, AsMap, Below, Above;
      Known0();
      ghost var at, t := PlaceOf(cells, header, [], tree, header.left, p);
      PlugNone(tree);
      RiseAll(cells, header, at, t, p);
      Known(at, t, p);
      TakenOut(at, t);
      a, b := Left(at, t), Right(at, t);
      if p.right == null || p.left == null {
        var c := if p.right == null then p.left else p.right;
        OnlyPairs(at, t);
        freed := p;
        Drop(p, c, at, t);
      } else {
        freed := DropPredecessor(p, at, t);
      }
    }

    method TakeOver(p: VarEnt, c: VarEnt)
      requires Held() && p in cells && c in cells
      modifies p`name, p`vec, this`cells
      ensures Held() && cells == SetName(old(cells), p, old(c.name), old(c.vec)) && cells.Keys == old(cells.Keys)
    {
      cells := SetName(cells, p, c.name, c.vec);
      p.name := c.name;
      p.vec := c.vec;
    }

    /** The case of unsetv1 for a node with both children. */
    method DropPredecessor(p: VarEnt, ghost at: VPlace, ghost t: VTree) returns (c: VarEnt)
      requires Held() && At(cells, header, at, t, p) && t.Node? && t.left.Node? && p in cells && p == t.e.node && p.left == t.left.e.node
      requires cells.Keys == Nodes(t) + PlaceNodes(header, at) && Balanced(Plug(at, t))
      modifies this`cells, this`tree, cells.Keys
      ensures Held() && header in cells && At(cells, header, [], tree, cells[header].left)
      ensures c in old(cells) && cells.Keys == old(cells.Keys) - {c} && cells.Keys == Nodes(tree) + {header}
      ensures Balanced(tree) && Pairs(tree) == Left(at, t) + Right(at, t)
    {
      hide Holds, VarCells.At, Balanced, BalancedAt, PlaceNodes, Plug, Pairs, Before, After, Nodes, Left, Right;
      Descend(cells, header, at, t, p, false);
      HeldAt(p);
      c := Predecessor(p.left, at + [Frame(t.e, false, t.right)], t.left);
      ghost var s := RightTop(t.left);
      ghost var e := t.e.(name := s.e.name, vec := s.e.vec);
      ghost var u := Node(t.left, e, t.right);
      ghost var f := Frame(e, false, t.right);
      NameTop(cells, header, at, t, p, c.name, c.vec);
      TakeOver(p, c);
      SameBalance(at, t, e);
      Descend(cells, header, at, u, p, false);
      RightmostAt(cells, header, at + [f], t.left, Link(cells, p, false));
      PredecessorOut(at, t);
      Known(at + [f] + RightPath(t.left), s, c);
      Drop(c, c.left, at + [f] + RightPath(t.left), s);
    }

    static lemma SameBalance(at: VPlace, t: VTree, e: VEnt)
      requires t.Node? && Balanced(Plug(at, t)) && e.bal == t.e.bal
      ensures Balanced(Plug(at, Node(t.left, e, t.right)))
    {
      PlugBalanced(at, t);
      PlugBalanced(at, Node(t.left, e, t.right));
    }

    static lemma OnlyPairs(at: VPlace, t: VTree)
      requires t.Node? && (t.left.Leaf? || t.right.Leaf?)
      ensures Before(at) + Pairs(Only(t)) + After(at) == Left(at, t) + Right(at, t)
    {
    }

    static lemma TakenOut(at: VPlace, t: VTree)
      requires t.Node? && Sorted(Pairs(Plug(at, t)))
      ensures var ps, a, b := Pairs(Plug(at, t)), Left(at, t), Right(at, t);
        && ps == a + [(t.e.name, t.e.vec)] + b && Sorted(a + b)
        && AsMap(a + b) == AsMap(ps) - {t.e.name} && t.e.name in AsMap(ps) && AsMap(ps)[t.e.name] == t.e.vec
    {
      hide Sorted, Below, Above, AsMap, Pairs, Before, After;
      NodePairs(Plug(at, t), at, t);
      SortedApart(Left(at, t), [(t.e.name, t.e.vec)], Right(at, t));
      AroundMap(Left(at, t), t.e.name, t.e.vec, Right(at, t));
    }

    // ---- unset with patterns ----

    /** madrof: the first variable, in order, whose name a pattern matches, in the tree under link v. */
    method Madrof(matches: Name -> bool, v: VarEnt?, ghost at: VPlace, ghost t: VTree) returns (r: VarEnt?, ghost k: nat)
      requires Held() && At(cells, header, at, t, v)
      ensures r == null <==> NoneMatch(matches, Pairs(t))
      ensures r != null ==>
        && r in Nodes(t) && k < |Pairs(t)| && Pairs(t)[k] == (r.name, r.vec)
        && matches(r.name) && NoneMatch(matches, Pairs(t)[..k])
      decreases t
    {
      hide Held, VarCells.At, NoneMatch, Pairs, Nodes;
      var vp := v;
      ghost var all, done, at1, s := Pairs(t), [], at, t;
      NoneOfNone<Vec>(matches);
      OfLeaf();
      LeafNull(at, t, v);
      while vp != null
        invariant At(cells, header, at1, s, vp) && (vp == null <==> s == Leaf)
        invariant done + Pairs(s) == all && NoneMatch(matches, done) && Nodes(s) <= Nodes(t)
        invariant s == t || s < t
        decreases s
      {
        Kids(at1, s, vp);
        if vp.left != null {
          r, k := Madrof(matches, vp.left, at1 + [Frame(s.e, false, s.right)], s.left);
          if r != null {
            Within(matches, all, s, done, k);
            k := |done| + k;
            return;
          }
        }
        if matches(vp.name) {
          Here(matches, all, s, done);
          r, k := vp, |done| + |Pairs(s.left)|;
          return;
        }
        Skipped(matches, all, s, done);
        done := done + Pairs(s.left) + [(s.e.name, s.e.vec)];
        at1, s := at1 + [Frame(s.e, true, s.left)], s.right;
        vp := vp.right;
      }
      assert done + [] == done;
      r, k := vp, 0;
    }

    /** A node, and what hangs from it. */
    lemma Kids(at: VPlace, t: VTree, p: VarEnt)
      requires Held() && At(cells, header, at, t, p)
      ensures t.Node? && p == t.e.node && p in cells && p.name == t.e.name && p.vec == t.e.vec && p in Nodes(t)
      ensures At(cells, header, at + [Frame(t.e, false, t.right)], t.left, p.left) && (p.left == null <==> t.left == Leaf)
      ensures At(cells, header, at + [Frame(t.e, true, t.left)], t.right, p.right) && (p.right == null <==> t.right == Leaf)
      ensures Nodes(t.left) <= Nodes(t) && Nodes(t.right) <= Nodes(t)
    {
      hide Holds, VarCells.At, Nodes;
      LeafNull(at, t, p);
      Known(at, t, p);
      HeldAt(p);
      NodesOf(t);
      Descend(cells, header, at, t, p, false);
      Descend(cells, header, at, t, p, true);
      LeafNull(at + [Frame(t.e, false, t.right)], t.left, p.left);
      LeafNull(at + [Frame(t.e, true, t.left)], t.right, p.right);
    }

    static lemma OfLeaf()
      ensures Pairs<VarEnt, Vec>(Leaf) == []
    {
    }

    static lemma NodesOf(t: VTree)
      requires t.Node?
      ensures t.e.node in Nodes(t) && Nodes(t.left) <= Nodes(t) && Nodes(t.right) <= Nodes(t)
    {
    }

    /** A first match among the names left of a node, after others that do not match. */
    static lemma Within(matches: Name -> bool, all: seq<(Name, Vec)>, s: VTree, done: seq<(Name, Vec)>, k: nat)
      requires s.Node? && done + Pairs(s) == all && NoneMatch(matches, done)
      requires k < |Pairs(s.left)| && NoneMatch(matches, Pairs(s.left)[..k]) && matches(Pairs(s.left)[k].0)
      ensures |done| + k < |all| && all[|done| + k] == Pairs(s.left)[k]
      ensures NoneMatch(matches, all[..|done| + k]) && !NoneMatch(matches, all)
    {
      assert all[..|done| + k] == done + Pairs(s.left)[..k];
      assert all[|done| + k] == Pairs(s.left)[k];
    }

    static lemma Here(matches: Name -> bool, all: seq<(Name, Vec)>, s: VTree, done: seq<(Name, Vec)>)
      requires s.Node? && done + Pairs(s) == all && NoneMatch(matches, done) && NoneMatch(matches, Pairs(s.left))
      requires matches(s.e.name)
      ensures var k := |done| + |Pairs(s.left)|;
        && k < |all| && all[k] == (s.e.name, s.e.vec)
        && NoneMatch(matches, all[..k]) && !NoneMatch(matches, all)
    {
      var k := |done| + |Pairs(s.left)|;
      assert all[..k] == done + Pairs(s.left);
      assert all[k] == (s.e.name, s.e.vec);
    }

    static lemma Skipped(matches: Name -> bool, all: seq<(Name, Vec)>, s: VTree, done: seq<(Name, Vec)>)
      requires s.Node? && done + Pairs(s) == all && NoneMatch(matches, done) && NoneMatch(matches, Pairs(s.left))
      requires !matches(s.e.name)
      ensures var done1 := done + Pairs(s.left) + [(s.e.name, s.e.vec)];
        done1 + Pairs(s.right) == all && NoneMatch(matches, done1)
    {
    }

    /** unset1: for each pattern, take out matching variables until there are none; remember the
        last pattern that matched none at all (-1: there was no such). */
    method Unset1(pats: seq<Name -> bool>) returns (bname: int)
      requires Valid()
      modifies this`cells, this`tree, cells.Keys
      ensures Valid() && cells.Keys <= old(cells.Keys)
      ensures Pairs(tree) == WithoutAll(old(Pairs(tree)), pats)
      ensures Contents() == map n | n in old(Contents()) && !Matched(pats, n) :: old(Contents())[n]
      ensures -1 <= bname < |pats|
      ensures forall j :: bname <= j < |pats| && 0 <= j ==>
        (j == bname <==> NoneMatch(pats[j], WithoutAll(old(Pairs(tree)), pats[..j])))
    {
      hide Holds, VarCells.At, Valid, Pairs, Without, NoneMatch, Matched, AsMap;
      bname := -1;
      ghost var before := Pairs(tree);
      var i := 0;
      assert pats[..0] == [];
      while i < |pats|
        invariant 0 <= i <= |pats| && -1 <= bname < i
        invariant Valid() && cells.Keys <= old(cells.Keys)
        invariant Pairs(tree) == WithoutAll(before, pats[..i])
        invariant forall j :: bname <= j < i && 0 <= j ==>
          (j == bname <==> NoneMatch(pats[j], WithoutAll(before, pats[..j])))
      {
        var cnt := UnsetMatching(pats[i]);
        if cnt == 0 {
          bname := i;
        }
        assert pats[..i + 1][..i] == pats[..i];
        i := i + 1;
      }
      assert pats[..i] == pats;
      WithoutAllAsMap(before, pats);
    }

    method UnsetMatching(matches: Name -> bool) returns (cnt: nat)
      requires Valid()
      modifies this`cells, this`tree, cells.Keys
      ensures Valid() && cells.Keys <= old(cells.Keys)
      ensures Pairs(tree) == Without(old(Pairs(tree)), matches)
      ensures cnt == 0 <==> NoneMatch(matches, old(Pairs(tree)))
      ensures cnt == |old(Pairs(tree))| - |Pairs(tree)|
    {
      hide Holds, VarCells.At, Pairs, Balanced, Sorted, NoneMatch, Without;
      cnt := 0;
      HeldAt(header);
      var vp;
      ghost var k: nat;
      vp, k := Madrof(matches, header.left, [], tree);
      while vp != null
        invariant Valid() && cells.Keys <= old(cells.Keys)
        invariant Without(Pairs(tree), matches) == Without(old(Pairs(tree)), matches)
        invariant cnt == |old(Pairs(tree))| - |Pairs(tree)|
        invariant vp == null <==> NoneMatch(matches, Pairs(tree))
        invariant vp != null ==> vp in Nodes(tree) && matches(vp.name)
        invariant cnt == 0 ==> Pairs(tree) == old(Pairs(tree))
        invariant cnt > 0 ==> !NoneMatch(matches, old(Pairs(tree)))
        decreases |Pairs(tree)|
      {
        InTable(vp);
        ghost var name, vec := vp.name, vp.vec;
        ghost var freed, a, b := UnsetV1(vp);
        WithoutOne(a, (name, vec), b, matches);
        cnt := cnt + 1;
        HeldAt(header);
        vp, k := Madrof(matches, header.left, [], tree);
      }
      NothingLeft(matches, Pairs(tree));
    }

    lemma InTable(n: VarEnt)
      requires Valid() && n in Nodes(tree)
      ensures n in cells && n != header
    {
    }

    static lemma NothingLeft(matches: Name -> bool, ps: seq<(Name, Vec)>)
      requires NoneMatch(matches, ps)
      ensures Without(ps, matches) == ps
    {
      WithoutNone(ps, matches);
    }

    // ---- plist ----

    /** plist: the names and words of the table, as they are printed: walking down left links, and
        up parent links from right ones. */
    method PList() returns (out: seq<(Name, Vec)>)
      requires Valid()
      ensures out == Pairs(tree)
    {
      hide Holds, VarCells.At, Valid, Pairs, Before, After, Plug, Left;
      Known0();
      out := [];
      ghost var at: VPlace, t: VTree := [], tree;
      PlugNone(tree);
      HeldAt(header);
      OfLeaf();
      OverKnown(at, t, header.left);
      if header.left == null {
        return;
      }
      var p := header.left;
      AtTop(tree);
      p, at, t := Leftmost(p, at, t);
      while p.parent != null
        invariant Held() && header in cells && p in cells && header.parent == null && out <= Pairs(tree)
        invariant p != header ==> At(cells, header, at, t, p) && t.Node? && Plug(at, t) == tree && out == Left(at, t)
        invariant p.parent == null ==> out == Pairs(tree)
        decreases |Pairs(tree)| - |out|
      {
        Known(at, t, p);
        NodePairs(tree, at, t);
        out := out + [(p.name, p.vec)];
        if p.right != null {
          Descend(cells, header, at, t, p, true);
          HeldAt(p);
          WentRight(at, t);
          at, t := at + [Frame(t.e, true, t.left)], t.right;
          p := p.right;
          p, at, t := Leftmost(p, at, t);
        } else {
          LastDone(at, t);
          p, at, t := Climb(p, at, t);
        }
      }
    }

    method Leftmost(p: VarEnt, ghost at: VPlace, ghost t: VTree) returns (q: VarEnt, ghost at1: VPlace, ghost s: VTree)
      requires Held() && At(cells, header, at, t, p) && t.Node?
      ensures At(cells, header, at1, s, q) && s.Node? && q in cells && Plug(at1, s) == Plug(at, t)
      ensures Left(at1, s) == Before(at) && q.parent != null && q != header
    {
      hide Holds, VarCells.At, Plug, Left, Before, Pairs;
      q, at1, s := p, at, t;
      Known(at1, s, q);
      while q.left != null
        invariant At(cells, header, at1, s, q) && s.Node? && q in cells && Plug(at1, s) == Plug(at, t)
        invariant q == s.e.node && q.parent != null && q.left == (if s.left.Node? then s.left.e.node else null)
        invariant Before(at1) == Before(at)
        decreases s
      {
        Descend(cells, header, at1, s, q, false);
        HeldAt(q);
        WentLeft(at1, s);
        at1, s := at1 + [Frame(s.e, false, s.right)], s.left;
        q := q.left;
        Known(at1, s, q);
      }
      NoLeft(at1, s);
      OffHeader(at1, s, q);
    }

    /** The do-while loop of plist: up to the first node come to from its left; the header, if there
        is none. */
    method Climb(p0: VarEnt, ghost at0: VPlace, ghost t0: VTree) returns (p: VarEnt, ghost at: VPlace, ghost t: VTree)
      requires Valid() && At(cells, header, at0, t0, p0) && t0.Node? && Plug(at0, t0) == tree && p0 in cells
      ensures p in cells && (p == header <==> p.parent == null)
      ensures p != header ==>
        At(cells, header, at, t, p) && t.Node? && Plug(at, t) == tree && Left(at, t) == Before(at0) + Pairs(t0)
      ensures p == header ==> Pairs(tree) == Before(at0) + Pairs(t0)
    {
      hide Holds, VarCells.At, Plug, Left, Before, Pairs, Sorted, Balanced;
      p, at, t := p0, at0, t0;
      while true
        invariant At(cells, header, at, t, p) && t.Node? && Plug(at, t) == tree && p in cells
        invariant Before(at) + Pairs(t) == Before(at0) + Pairs(t0)
        decreases |at|
      {
        var c := p;
        Known(at, t, p);
        SideFound(cells, header, at, t, p);
        OverKnown(at, t, p);
        p := p.parent;
        HeldAt(p);
        if at == [] {
          AtTop(t);
        } else {
          Rise(cells, header, at, t, c);
          WentUp(at, t);
          OffHeader(at[..|at| - 1], AvlTrees.Join(at[|at| - 1], t), p);
          at, t := at[..|at| - 1], AvlTrees.Join(at[|at| - 1], t);
        }
        if p.right != c {
          return;
        }
      }
    }

    static lemma WentLeft(at: VPlace, t: VTree)
      requires t.Node?
      ensures Before(at + [Frame(t.e, false, t.right)]) == Before(at)
    {
      assert (at + [Frame(t.e, false, t.right)])[..|at|] == at;
    }

    static lemma WentRight(at: VPlace, t: VTree)
      requires t.Node?
      ensures Before(at + [Frame(t.e, true, t.left)]) == Left(at, t) + [(t.e.name, t.e.vec)]
    {
      assert (at + [Frame(t.e, true, t.left)])[..|at|] == at;
    }

    static lemma NoLeft(at: VPlace, t: VTree)
      requires t.Node? && t.left.Leaf?
      ensures Left(at, t) == Before(at)
    {
    }

    static lemma LastDone(at: VPlace, t: VTree)
      requires t.Node? && t.right.Leaf?
      ensures Before(at) + Pairs(t) == Left(at, t) + [(t.e.name, t.e.vec)]
    {
    }

    /** Going up from a node that is all done: on the right of the one above, that is done too. */
    static lemma WentUp(at: VPlace, t: VTree)
      requires at != []
      ensures var f, up := at[|at| - 1], at[..|at| - 1];
        && Plug(up, AvlTrees.Join(f, t)) == Plug(at, t)
        && AvlTrees.Join(f, t).Node?
        && (if f.right then Before(up) + Pairs(AvlTrees.Join(f, t)) else Left(up, AvlTrees.Join(f, t))) == Before(at) + Pairs(t)
    {
    }

    static lemma AtTop(t: VTree)
      ensures Plug([], t) == t && Before<VarEnt, Vec>([]) + Pairs(t) == Pairs(t)
    {
    }

    method Do(c: Change)
      requires Valid()
      modifies this`cells, this`tree, cells.Keys
      ensures Valid() && fresh(cells.Keys - old(cells.Keys)) && Contents() == Changed(old(Contents()), c)
    {
      hide Valid, Contents, Matched, Trim;
      match c {
        case Assign(name, vec) => SetQ(name, vec);
        case Unset(pats) => var bname := Unset1(pats);
      }
    }

    /** Any run of changes: the table stays a balanced search tree and does what a map would do. */
    method Run(cs: seq<Change>)
      requires Valid()
      modifies this`cells, this`tree, cells.Keys
      ensures Valid() && fresh(cells.Keys - old(cells.Keys)) && Contents() == ChangedAll(old(Contents()), cs)
    {
      hide Valid, Contents, Matched, Changed;
      var i := 0;
      assert cs[..0] == [];
      while i < |cs|
        invariant 0 <= i <= |cs| && Valid() && fresh(cells.Keys - old(cells.Keys))
        invariant Contents() == ChangedAll(old(Contents()), cs[..i])
      {
        Do(cs[i]);
        assert cs[..i + 1][..i] == cs[..i];
        i := i + 1;
      }
      assert cs[..i] == cs;
    }
  }
}
