/** The nodes of the shell's variable tree, and snapshots of their fields as values: when such a
    snapshot holds a given tree, and what a rotation and the other relinking steps do to it. */
module VarCells {
  import opened Names
  import opened AvlTrees

  /** A variable's words; their characters, quote bit included. */
  type Vec = seq<seq<int>>

  class VarEnt {
    var name: Name
    var vec: Vec
    var bal: int
    var left: VarEnt?
    var right: VarEnt?
    var parent: VarEnt?

    constructor (name: Name, parent: VarEnt?)
      ensures this.name == name && vec == [] && bal == 0 && left == null && right == null && this.parent == parent
    {
      this.name, vec, bal, left, right, this.parent := name, [], 0, null, null, parent;
    }
  }

  datatype Cell = Cell(name: Name, vec: Vec, bal: int, left: VarEnt?, right: VarEnt?, parent: VarEnt?)

  type Cells = map<VarEnt, Cell>

  type VTree = Tree<VarEnt, Vec>
  type VPlace = Place<VarEnt, Vec>
  type VEnt = Ent<VarEnt, Vec>

  ghost predicate Holds(c: Cells)
    reads c.Keys
  {
    forall n :: n in c ==> c[n] == Cell(n.name, n.vec, n.bal, n.left, n.right, n.parent)
  }

  ghost predicate EntAt(c: Cells, e: VEnt, parent: VarEnt) {
    && e.node in c && c[e.node].name == e.name && c[e.node].vec == e.vec && c[e.node].bal == e.bal
    && c[e.node].parent == parent
  }

  /** c holds tree t, hanging from parent by link p. */
  ghost predicate TreeAt(c: Cells, t: VTree, p: VarEnt?, parent: VarEnt) {
    match t
    case Leaf => p == null
    case Node(l, e, r) =>
      && p == e.node && EntAt(c, e, parent)
      && TreeAt(c, l, c[e.node].left, e.node) && TreeAt(c, r, c[e.node].right, e.node)
  }

  ghost function Nodes(t: VTree): set<VarEnt> {
    match t
    case Leaf => {}
    case Node(l, e, r) => {e.node} + Nodes(l) + Nodes(r)
  }

  ghost predicate Distinct(t: VTree) {
    match t
    case Leaf => true
    case Node(l, e, r) =>
      && e.node !in Nodes(l) && e.node !in Nodes(r) && Nodes(l) !! Nodes(r)
      && Distinct(l) && Distinct(r)
  }

  /** The node above a place; above all others, the header. */
  function Over(header: VarEnt, at: VPlace): VarEnt {
    if at == [] then header else at[|at| - 1].e.node
  }

  /** c holds the header and the nodes of a place, where link hole is. */
  ghost predicate PlaceAt(c: Cells, header: VarEnt, at: VPlace, hole: VarEnt?) {
    if at == [] then
      header in c && c[header].left == hole && c[header].right == null && c[header].parent == null
    else
      var f, up := at[|at| - 1], at[..|at| - 1];
      && EntAt(c, f.e, Over(header, up))
      && (if f.right then c[f.e.node].right == hole && TreeAt(c, f.other, c[f.e.node].left, f.e.node)
          else c[f.e.node].left == hole && TreeAt(c, f.other, c[f.e.node].right, f.e.node))
      && PlaceAt(c, header, up, f.e.node)
  }

  ghost function PlaceNodes(header: VarEnt, at: VPlace): set<VarEnt> {
    if at == [] then {header}
    else
      var f := at[|at| - 1];
      {f.e.node} + Nodes(f.other) + PlaceNodes(header, at[..|at| - 1])
  }

  ghost predicate DistinctAt(header: VarEnt, at: VPlace) {
    at == [] ||
    var f, up := at[|at| - 1], at[..|at| - 1];
    && Distinct(f.other) && f.e.node !in Nodes(f.other)
    && ({f.e.node} + Nodes(f.other)) !! PlaceNodes(header, up)
    && DistinctAt(header, up)
  }

  /** Everything about a tree t at a place. */
  ghost predicate At(c: Cells, header: VarEnt, at: VPlace, t: VTree, hole: VarEnt?) {
    && PlaceAt(c, header, at, hole) && TreeAt(c, t, hole, Over(header, at))
    && DistinctAt(header, at) && Distinct(t) && Nodes(t) !! PlaceNodes(header, at)
  }

  lemma {:induction false} TreeFrame(c: Cells, d: Cells, t: VTree, p: VarEnt?, parent: VarEnt)
    requires TreeAt(c, t, p, parent) && forall n :: n in Nodes(t) ==> n in c && n in d && d[n] == c[n]
    ensures TreeAt(d, t, p, parent)
  {
    if t.Node? {
      TreeFrame(c, d, t.left, c[t.e.node].left, t.e.node);
      TreeFrame(c, d, t.right, c[t.e.node].right, t.e.node);
    }
  }

  lemma {:induction false} TreeNodesIn(c: Cells, t: VTree, p: VarEnt?, parent: VarEnt)
    requires TreeAt(c, t, p, parent)
    ensures Nodes(t) <= c.Keys
  {
    if t.Node? {
      TreeNodesIn(c, t.left, c[t.e.node].left, t.e.node);
      TreeNodesIn(c, t.right, c[t.e.node].right, t.e.node);
    }
  }

  lemma {:induction false} PlaceFrame(c: Cells, d: Cells, header: VarEnt, at: VPlace, hole: VarEnt?)
    requires PlaceAt(c, header, at, hole)
    requires forall n :: n in PlaceNodes(header, at) ==> n in c && n in d && d[n] == c[n]
    ensures PlaceAt(d, header, at, hole)
  {
    if at != [] {
      var f := at[|at| - 1];
      TreeFrame(c, d, f.other, if f.right then c[f.e.node].left else c[f.e.node].right, f.e.node);
      PlaceFrame(c, d, header, at[..|at| - 1], f.e.node);
    }
  }

  lemma {:induction false} PlaceNodesIn(c: Cells, header: VarEnt, at: VPlace, hole: VarEnt?)
    requires PlaceAt(c, header, at, hole)
    ensures PlaceNodes(header, at) <= c.Keys && header in PlaceNodes(header, at) && Over(header, at) in PlaceNodes(header, at)
  {
    if at != [] {
      var f := at[|at| - 1];
      TreeNodesIn(c, f.other, if f.right then c[f.e.node].left else c[f.e.node].right, f.e.node);
      PlaceNodesIn(c, header, at[..|at| - 1], f.e.node);
    }
  }

  function Link(c: Cells, n: VarEnt, right: bool): VarEnt?
    requires n in c
  {
    if right then c[n].right else c[n].left
  }

  function SetLink(c: Cells, n: VarEnt, right: bool, x: VarEnt?): Cells
    requires n in c
  {
    if right then c[n := c[n].(right := x)] else c[n := c[n].(left := x)]
  }

  function SetParent(c: Cells, n: VarEnt, x: VarEnt?): Cells
    requires n in c
  {
    c[n := c[n].(parent := x)]
  }

  function SetBal(c: Cells, n: VarEnt, b: int): Cells
    requires n in c
  {
    c[n := c[n].(bal := b)]
  }

  /** Whether a place is on the right of the node above it; the tree is on the header's left. */
  function Side(at: VPlace): bool {
    at != [] && at[|at| - 1].right
  }

  /** The node above finds its place by comparing its right link. */
  lemma SideFound(c: Cells, header: VarEnt, at: VPlace, t: VTree, p: VarEnt)
    requires At(c, header, at, t, p) && t.Node?
    ensures Over(header, at) in c && (c[Over(header, at)].right == p <==> Side(at))
  {
    PlaceNodesIn(c, header, at, p);
  }

  /** Hanging something else at a place. */
  lemma Hang(c: Cells, header: VarEnt, at: VPlace, hole: VarEnt?, x: VarEnt?)
    requires PlaceAt(c, header, at, hole) && DistinctAt(header, at)
    ensures Over(header, at) in c
    ensures PlaceAt(SetLink(c, Over(header, at), Side(at), x), header, at, x)
  {
    var p := Over(header, at);
    PlaceNodesIn(c, header, at, hole);
    var d := SetLink(c, p, Side(at), x);
    if at != [] {
      var f := at[|at| - 1];
      TreeNodesIn(c, f.other, if f.right then c[p].left else c[p].right, p);
      TreeFrame(c, d, f.other, if f.right then c[p].left else c[p].right, p);
      PlaceNodesIn(c, header, at[..|at| - 1], p);
      PlaceFrame(c, d, header, at[..|at| - 1], p);
    }
  }

  /** The node above a place with the tree there, as a tree at the place above. */
  lemma Rise(c: Cells, header: VarEnt, at: VPlace, t: VTree, hole: VarEnt?)
    requires At(c, header, at, t, hole) && at != []
    ensures At(c, header, at[..|at| - 1], Join(at[|at| - 1], t), at[|at| - 1].e.node)
    ensures Nodes(Join(at[|at| - 1], t)) + PlaceNodes(header, at[..|at| - 1]) == Nodes(t) + PlaceNodes(header, at)
  {
  }

  /** The whole tree, with t at a place of it. */
  lemma {:induction false} RiseAll(c: Cells, header: VarEnt, at: VPlace, t: VTree, hole: VarEnt?)
    requires At(c, header, at, t, hole)
    ensures header in c && At(c, header, [], Plug(at, t), c[header].left)
    ensures Nodes(Plug(at, t)) + {header} == Nodes(t) + PlaceNodes(header, at)
  {
    if at != [] {
      Rise(c, header, at, t, hole);
      RiseAll(c, header, at[..|at| - 1], Join(at[|at| - 1], t), at[|at| - 1].e.node);
    }
  }

  /** Going down from a node to one of its sides. */
  lemma Descend(c: Cells, header: VarEnt, at: VPlace, t: VTree, hole: VarEnt?, right: bool)
    requires At(c, header, at, t, hole) && t.Node?
    ensures var f := Frame(t.e, right, if right then t.left else t.right);
      && t.e.node in c
      && At(c, header, at + [f], if right then t.right else t.left, Link(c, t.e.node, right))
      && Plug(at + [f], if right then t.right else t.left) == Plug(at, t)
      && Nodes(if right then t.right else t.left) + PlaceNodes(header, at + [f]) == Nodes(t) + PlaceNodes(header, at)
  {
    var f := Frame(t.e, right, if right then t.left else t.right);
    assert (at + [f])[..|at|] == at;
  }

  // ---- Rotations ----

  /** A node with x on one side and y on the other. */
  function Make(e: VEnt, right: bool, x: VTree, y: VTree): VTree {
    if right then Node(y, e, x) else Node(x, e, y)
  }

  /** The relinking of a rotation of node p, to the right (up comes its left child) or to the
      left, but for the link to it from above. */
  function Rot(c: Cells, p: VarEnt, right: bool): Cells
    requires p in c && Link(c, p, !right) != null && Link(c, p, !right) in c && Link(c, p, !right) != p
    requires Link(c, Link(c, p, !right), right) != null ==> Link(c, Link(c, p, !right), right) in c
  {
    var t := Link(c, p, !right);
    var c1 := SetParent(c, t, c[p].parent);
    var c2 := SetLink(c1, p, !right, Link(c1, t, right));
    var b := Link(c2, t, right);
    var c3 := if b != null then SetParent(c2, b, p) else c2;
    var c4 := SetLink(c3, t, right, p);
    SetParent(c4, p, t)
  }

  /** What a rotation starts from: p with q on the side it leaves. */
  ghost predicate Rotates(c: Cells, p: VarEnt, right: bool, a: VTree, q: VEnt, b: VTree, s: VEnt, d: VTree, parent: VarEnt) {
    var t := Make(s, !right, Make(q, !right, a, b), d);
    && TreeAt(c, t, p, parent) && Distinct(t)
  }

  /** The parts of the tree a rotation starts from. */
  lemma RotParts(c: Cells, p: VarEnt, right: bool, a: VTree, q: VEnt, b: VTree, s: VEnt, d: VTree, parent: VarEnt)
    requires Rotates(c, p, right, a, q, b, s, d, parent)
    ensures p == s.node && EntAt(c, s, parent) && Link(c, p, !right) == q.node && EntAt(c, q, p) && q.node != p
    ensures TreeAt(c, a, Link(c, q.node, !right), q.node) && TreeAt(c, b, Link(c, q.node, right), q.node)
    ensures TreeAt(c, d, Link(c, p, right), p)
    ensures p !in Nodes(a) && p !in Nodes(b) && p !in Nodes(d)
    ensures q.node !in Nodes(a) && q.node !in Nodes(b) && q.node !in Nodes(d)
    ensures Nodes(a) !! Nodes(b) && Nodes(a) !! Nodes(d) && Nodes(b) !! Nodes(d)
    ensures Distinct(a) && Distinct(b) && Distinct(d)
    ensures Nodes(Make(s, !right, Make(q, !right, a, b), d)) == {p, q.node} + Nodes(a) + Nodes(b) + Nodes(d)
  {
    var x := Make(q, !right, a, b);
    assert Nodes(x) == {q.node} + Nodes(a) + Nodes(b);
    assert TreeAt(c, x, Link(c, p, !right), p) && Distinct(x) && s.node !in Nodes(x);
  }

  lemma RotLinks(c: Cells, p: VarEnt, right: bool, a: VTree, q: VEnt, b: VTree, s: VEnt, d: VTree, parent: VarEnt)
    requires Rotates(c, p, right, a, q, b, s, d, parent)
    ensures p == s.node && p in c && Link(c, p, !right) == q.node && q.node in c && q.node != p
    ensures var x := Link(c, q.node, right);
      && (b.Leaf? ==> x == null) && (b.Node? ==> x == b.e.node && x in c && x != p && x != q.node)
    ensures var g := Rot(c, p, right);
      && g[p] == (if right then c[p].(left := c[q.node].right, parent := q.node)
                  else c[p].(right := c[q.node].left, parent := q.node))
      && g[q.node] == (if right then c[q.node].(right := p, parent := c[p].parent)
                       else c[q.node].(left := p, parent := c[p].parent))
      && (b.Node? ==> g[b.e.node] == c[b.e.node].(parent := p))
      && g.Keys == c.Keys
      && forall n :: n in c && n != p && n != q.node && (b.Node? ==> n != b.e.node) ==> g[n] == c[n]
  {
    RotParts(c, p, right, a, q, b, s, d, parent);
  }

  lemma Reparent(c: Cells, g: Cells, t: VTree, p: VarEnt?, parent: VarEnt, to: VarEnt)
    requires TreeAt(c, t, p, parent) && Distinct(t)
    requires forall n :: n in Nodes(t) ==> n in c && n in g && g[n] == if n == p then c[n].(parent := to) else c[n]
    ensures TreeAt(g, t, p, to)
  {
    if t.Node? {
      TreeFrame(c, g, t.left, c[t.e.node].left, t.e.node);
      TreeFrame(c, g, t.right, c[t.e.node].right, t.e.node);
    }
  }

  lemma RotNodes(right: bool, a: VTree, q: VEnt, b: VTree, s: VEnt, d: VTree)
    requires Distinct(Make(s, !right, Make(q, !right, a, b), d))
    ensures var t, u := Make(s, !right, Make(q, !right, a, b), d), Make(q, !right, a, Make(s, !right, b, d));
      Distinct(u) && Nodes(u) == Nodes(t)
  {
  }

  /** A rotation turns the tree it starts from into the rotated one. */
  lemma RotTree(c: Cells, p: VarEnt, right: bool, a: VTree, q: VEnt, b: VTree, s: VEnt, d: VTree, parent: VarEnt)
    requires Rotates(c, p, right, a, q, b, s, d, parent)
    ensures p in c && Link(c, p, !right) == q.node && q.node in c && q.node != p
    ensures Link(c, q.node, right) != null ==> Link(c, q.node, right) in c
    ensures TreeAt(Rot(c, p, right), Make(q, !right, a, Make(s, !right, b, d)), q.node, parent)
  {
    RotParts(c, p, right, a, q, b, s, d, parent);
    RotLinks(c, p, right, a, q, b, s, d, parent);
    var g := Rot(c, p, right);
    var la, lb, ld := Link(c, q.node, !right), Link(c, q.node, right), Link(c, p, right);
    TreeNodesIn(c, a, la, q.node);
    TreeNodesIn(c, b, lb, q.node);
    TreeNodesIn(c, d, ld, p);
    assert b.Node? ==> b.e.node in Nodes(b) && b.e.node !in Nodes(a) && b.e.node !in Nodes(d);
    TreeFrame(c, g, a, la, q.node);
    TreeFrame(c, g, d, ld, p);
    Reparent(c, g, b, lb, q.node, p);
  }

  /** A rotation of the tree at a place, with the link to it from above. */
  lemma RotAt(c: Cells, header: VarEnt, at: VPlace, p: VarEnt, right: bool, a: VTree, q: VEnt, b: VTree, s: VEnt, d: VTree)
    requires At(c, header, at, Make(s, !right, Make(q, !right, a, b), d), p)
    ensures p in c && Link(c, p, !right) == q.node && q.node in c && q.node != p
    ensures Link(c, q.node, right) != null ==> Link(c, q.node, right) in c
    ensures Over(header, at) in Rot(c, p, right)
    ensures At(SetLink(Rot(c, p, right), Over(header, at), Side(at), q.node), header, at,
               Make(q, !right, a, Make(s, !right, b, d)), q.node)
    ensures Nodes(Make(q, !right, a, Make(s, !right, b, d))) == Nodes(Make(s, !right, Make(q, !right, a, b), d))
  {
    hide Rot, TreeAt, Distinct, PlaceAt;
    var o := Over(header, at);
    var t, u := Make(s, !right, Make(q, !right, a, b), d), Make(q, !right, a, Make(s, !right, b, d));
    RotTree(c, p, right, a, q, b, s, d, o);
    RotParts(c, p, right, a, q, b, s, d, o);
    RotLinks(c, p, right, a, q, b, s, d, o);
    RotNodes(right, a, q, b, s, d);
    PlaceNodesIn(c, header, at, p);
    var g := Rot(c, p, right);
    assert p in Nodes(t) && q.node in Nodes(t) && (b.Node? ==> b.e.node in Nodes(t));
    PlaceFrame(c, g, header, at, p);
    Hang(g, header, at, p, q.node);
    TreeNodesIn(g, u, q.node, o);
    TreeFrame(g, SetLink(g, o, Side(at), q.node), u, q.node, o);
  }

  // ---- Balance factors ----

  lemma BalTop(c: Cells, header: VarEnt, at: VPlace, t: VTree, p: VarEnt, bal: int)
    requires At(c, header, at, t, p) && t.Node?
    ensures p in c
    ensures At(SetBal(c, p, bal), header, at, Node(t.left, Set(t.e, bal), t.right), p)
  {
    var g := SetBal(c, p, bal);
    PlaceNodesIn(c, header, at, p);
    PlaceFrame(c, g, header, at, p);
    TreeNodesIn(c, t.left, c[p].left, p);
    TreeNodesIn(c, t.right, c[p].right, p);
    TreeFrame(c, g, t.left, c[p].left, p);
    TreeFrame(c, g, t.right, c[p].right, p);
  }

  /** The factor of a child of the node at a place. */
  lemma BalSide(c: Cells, header: VarEnt, at: VPlace, t: VTree, p: VarEnt, right: bool, bal: int)
    requires At(c, header, at, t, p) && t.Node? && (if right then t.right.Node? else t.left.Node?)
    ensures p in c && Link(c, p, right) != null && Link(c, p, right) in c
    ensures var x, y := if right then t.right else t.left, if right then t.left else t.right;
      At(SetBal(c, Link(c, p, right), bal), header, at,
         Make(t.e, right, Node(x.left, Set(x.e, bal), x.right), y), p)
  {
    var x := if right then t.right else t.left;
    Descend(c, header, at, t, p, right);
    var f := Frame(t.e, right, if right then t.left else t.right);
    BalTop(c, header, at + [f], x, Link(c, p, right), bal);
    assert (at + [f])[..|at|] == at;
    Rise(SetBal(c, Link(c, p, right), bal), header, at + [f], Node(x.left, Set(x.e, bal), x.right), Link(c, p, right));
  }

  // ---- Growing, renaming and cutting ----

  /** A new node at an empty place. */
  lemma Graft(c: Cells, header: VarEnt, at: VPlace, n: VarEnt, name: Name)
    requires At(c, header, at, Leaf, null) && n !in c
    ensures var o, cell := Over(header, at), Cell(name, [], 0, null, null, Over(header, at));
      var t := Single(n, name, []);
      && o in c[n := cell]
      && At(SetLink(c[n := cell], o, Side(at), n), header, at, t, n)
      && Nodes(t) + PlaceNodes(header, at) == Nodes(Leaf) + PlaceNodes(header, at) + {n}
  {
    var o := Over(header, at);
    var d := c[n := Cell(name, [], 0, null, null, o)];
    PlaceNodesIn(c, header, at, null);
    PlaceFrame(c, d, header, at, null);
    Hang(d, header, at, null, n);
  }

  function SetName(c: Cells, n: VarEnt, name: Name, vec: Vec): Cells
    requires n in c
  {
    c[n := c[n].(name := name, vec := vec)]
  }

  /** The node at a place taking another name and other words. */
  lemma NameTop(c: Cells, header: VarEnt, at: VPlace, t: VTree, p: VarEnt, name: Name, vec: Vec)
    requires At(c, header, at, t, p) && t.Node?
    ensures p in c
    ensures var u := Node(t.left, t.e.(name := name, vec := vec), t.right);
      At(SetName(c, p, name, vec), header, at, u, p) && Nodes(u) == Nodes(t)
  {
    var g := SetName(c, p, name, vec);
    PlaceNodesIn(c, header, at, p);
    PlaceFrame(c, g, header, at, p);
    TreeNodesIn(c, t.left, c[p].left, p);
    TreeNodesIn(c, t.right, c[p].right, p);
    TreeFrame(c, g, t.left, c[p].left, p);
    TreeFrame(c, g, t.right, c[p].right, p);
  }

  /** Unhooking node p, whose one child at most, x, goes to pp in its place, and freeing it. */
  function CutOut(c: Cells, p: VarEnt, pp: VarEnt, f: bool, x: VarEnt?): Cells
    requires pp in c && (x != null ==> x in c)
  {
    var c1 := SetLink(c, pp, f, x);
    (if x != null then SetParent(c1, x, pp) else c1) - {p}
  }

  /** What is left holds what it held, but for the two new links. */
  lemma CutOutIs(c: Cells, p: VarEnt, pp: VarEnt, f: bool, x: VarEnt?)
    requires p in c && pp in c && p != pp && (x != null ==> x in c && x != p && x != pp)
    ensures var d, g := SetLink(c, pp, f, x), CutOut(c, p, pp, f, x);
      && d.Keys == c.Keys && g.Keys == c.Keys - {p} && g[pp] == d[pp]
      && (forall n :: n in c && n != pp ==> d[n] == c[n])
      && (forall n :: n in c && n != p && n != pp && n != x ==> g[n] == c[n])
      && (x != null ==> g[x] == c[x].(parent := pp))
  {
  }

  function Only(t: VTree): VTree
    requires t.Node?
  {
    if t.right.Leaf? then t.left else t.right
  }

  lemma Cut(c: Cells, header: VarEnt, at: VPlace, t: VTree, p: VarEnt)
    requires At(c, header, at, t, p) && t.Node? && (t.left.Leaf? || t.right.Leaf?)
    ensures p in c && Over(header, at) in c
    ensures var x := if c[p].right == null then c[p].left else c[p].right;
      && (x != null ==> x in c)
      && At(CutOut(c, p, Over(header, at), Side(at), x), header, at, Only(t), x)
    ensures Nodes(Only(t)) + PlaceNodes(header, at) == Nodes(t) + PlaceNodes(header, at) - {p}
  {
    hide PlaceAt, CutOut, SetLink;
    var o, s := Over(header, at), Only(t);
    assert EntAt(c, t.e, o) && p == t.e.node;
    var x := if c[p].right == null then c[p].left else c[p].right;
    assert TreeAt(c, t.left, c[p].left, p) && TreeAt(c, t.right, c[p].right, p);
    assert TreeAt(c, s, x, p) && p !in Nodes(s) && Distinct(s);
    TreeNodesIn(c, s, x, p);
    PlaceNodesIn(c, header, at, p);
    Hang(c, header, at, p, x);
    var d, g := SetLink(c, o, Side(at), x), CutOut(c, p, o, Side(at), x);
    assert x != null ==> x in Nodes(s);
    CutOutIs(c, p, o, Side(at), x);
    PlaceFrame(d, g, header, at, x);
    Reparent(c, g, s, x, p, o);
  }

  // ---- Finding nodes ----

  /** Where a node of the tree is. */
  lemma {:induction false} PlaceOf(c: Cells, header: VarEnt, at: VPlace, t: VTree, hole: VarEnt?, n: VarEnt)
      returns (at1: VPlace, s: VTree)
    requires At(c, header, at, t, hole) && n in Nodes(t)
    ensures At(c, header, at1, s, n) && s.Node? && s.e.node == n && Plug(at1, s) == Plug(at, t)
    ensures Nodes(s) + PlaceNodes(header, at1) == Nodes(t) + PlaceNodes(header, at)
    decreases t
  {
    if n == t.e.node {
      at1, s := at, t;
    } else {
      var right := n in Nodes(t.right);
      Descend(c, header, at, t, hole, right);
      var f := Frame(t.e, right, if right then t.left else t.right);
      at1, s := PlaceOf(c, header, at + [f], if right then t.right else t.left, Link(c, t.e.node, right), n);
    }
  }

  /** Where the rightmost node of a tree is. */
  lemma {:induction false} RightmostAt(c: Cells, header: VarEnt, at: VPlace, t: VTree, hole: VarEnt?)
    requires At(c, header, at, t, hole) && t.Node?
    ensures At(c, header, at + RightPath(t), RightTop(t), RightTop(t).e.node)
    ensures Nodes(RightTop(t)) + PlaceNodes(header, at + RightPath(t)) == Nodes(t) + PlaceNodes(header, at)
    decreases t
  {
    if t.right.Leaf? {
      assert at + [] == at;
    } else {
      Descend(c, header, at, t, hole, true);
      var f := Frame(t.e, true, t.left);
      RightmostAt(c, header, at + [f], t.right, Link(c, t.e.node, true));
      assert at + [f] + RightPath(t.right) == at + RightPath(t);
    }
  }

  lemma {:induction false} MarkedCells(c: Cells, t: VTree, p: VarEnt?, parent: VarEnt, m: (VarEnt, Name, Vec))
    requires TreeAt(c, t, p, parent) && m in Marks(t)
    ensures m.0 in Nodes(t) && m.0 in c && c[m.0].name == m.1 && c[m.0].vec == m.2
  {
    if m != (t.e.node, t.e.name, t.e.vec) {
      if m in Marks(t.left) {
        MarkedCells(c, t.left, c[t.e.node].left, t.e.node, m);
      } else {
        MarkedCells(c, t.right, c[t.e.node].right, t.e.node, m);
      }
    }
  }

  lemma {:induction false} NodeMarked(t: VTree, n: VarEnt) returns (m: (VarEnt, Name, Vec))
    requires n in Nodes(t)
    ensures m in Marks(t) && m.0 == n
  {
    if n == t.e.node {
      m := (t.e.node, t.e.name, t.e.vec);
    } else if n in Nodes(t.left) {
      m := NodeMarked(t.left, n);
    } else {
      m := NodeMarked(t.right, n);
    }
  }

  lemma {:induction false} MarkedNode(t: VTree, m: (VarEnt, Name, Vec))
    requires m in Marks(t)
    ensures m.0 in Nodes(t)
  {
    if t.Node? {
      if m in Marks(t.left) { MarkedNode(t.left, m); }
      if m in Marks(t.right) { MarkedNode(t.right, m); }
    }
  }

  lemma SameNodes(t: VTree, u: VTree)
    requires Marks(t) == Marks(u)
    ensures Nodes(t) == Nodes(u)
  {
    forall n | n in Nodes(t) ensures n in Nodes(u) {
      var m := NodeMarked(t, n);
      MarkedNode(u, m);
    }
    forall n | n in Nodes(u) ensures n in Nodes(t) {
      var m := NodeMarked(u, n);
      MarkedNode(t, m);
    }
  }

  /** Rebalancing loses no node and gives none another name or other words. */
  lemma Rebalanced(c: Cells, header: VarEnt, at: VPlace, t: VTree, hole: VarEnt?, deleted: bool)
    requires At(c, header, at, t, hole)
    ensures Nodes(Rebalance(at, t, deleted)) + {header} == Nodes(t) + PlaceNodes(header, at)
    ensures Pairs(Rebalance(at, t, deleted)) == Before(at) + Pairs(t) + After(at)
    ensures Marks(t) <= Marks(Rebalance(at, t, deleted))
  {
    RebalancePairs(at, t, deleted);
    RebalanceMarks(at, t, deleted);
    PlugMarks(at, t);
    SameNodes(Rebalance(at, t, deleted), Plug(at, t));
    RiseAll(c, header, at, t, hole);
  }
}
