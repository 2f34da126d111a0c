/** The editor's undo log as a path of ring changes. An undo entry holds only the two ends of
    a run; everything else it needs is read back out of the links the nodes still carry. The
    predicates here say when that works: when walking the log backwards over the links, each
    entry finds exactly the neighbours it had when it was pushed. */
module UndoLog {
  import opened Rings

  /** One step from a ring to the next. Positions count from the root, so they are at least 1.
      Moved takes seg out before position src (leaving the ring without it) and puts it in
      again before position dst; b1, a1 are its neighbours before, b2, a2 those after. */
  datatype Change<T> =
    | Added(at: nat, seg: seq<T>)
    | Deleted(at: nat, seg: seq<T>)
    | Moved(src: nat, dst: nat, seg: seq<T>, b1: T, a1: T, b2: T, a2: T)

  function Inverse<T>(c: Change<T>): Change<T> {
    match c
    case Added(at, seg) => Deleted(at, seg)
    case Deleted(at, seg) => Added(at, seg)
    case Moved(src, dst, seg, b1, a1, b2, a2) => Moved(dst, src, seg, b2, a2, b1, a1)
  }

  /** The seg of c sits, or can be put back, where c says. */
  ghost predicate Fits<T>(r: seq<T>, c: Change<T>) {
    && |r| > 0 && |c.seg| > 0
    && match c
       case Added(at, seg) => 1 <= at && at + |seg| <= |r| && r[at..at + |seg|] == seg
       case Deleted(at, seg) =>
         && 1 <= at <= |r| && NoDup(seg)
         && (forall x :: x in seg ==> x !in r)
       case Moved(src, dst, seg, b1, a1, b2, a2) =>
         && 1 <= dst && dst + |seg| <= |r| && r[dst..dst + |seg|] == seg
         && var q := Cut(r, dst, |seg|);
         && 1 <= src <= |q| && src != dst
         && b1 == q[src - 1] && a1 == At(q, src) && b2 == q[dst - 1] && a2 == At(q, dst)
  }

  /** The ring before c, from the ring after it. */
  ghost function UndoRing<T>(r: seq<T>, c: Change<T>): seq<T>
    requires Fits(r, c)
  {
    match c
    case Added(at, seg) => Cut(r, at, |seg|)
    case Deleted(at, seg) => Splice(r, at, seg)
    case Moved(src, dst, seg, _, _, _, _) => Splice(Cut(r, dst, |seg|), src, seg)
  }

  /** A deleted run still points at the neighbours it had. */
  ghost predicate Remembers<T>(h: Links<T>, r: seq<T>, c: Change<T>)
    requires Fits(r, c)
  {
    c.Deleted? ==>
      && Chain(h, c.seg)
      && h[c.seg[0]].prev == r[c.at - 1]
      && h[c.seg[|c.seg| - 1]].next == At(r, c.at)
  }

  ghost predicate CanUndo<T>(h: Links<T>, r: seq<T>, c: Change<T>) {
    IsRing(h, r) && Fits(r, c) && Remembers(h, r, c)
  }

  /** The relinking one iteration of `undo` does for an added run with ends s and t. */
  ghost function UnAdd<T>(h: Links<T>, s: T, t: T): Links<T>
    requires s in h && t in h && h[s].prev in h && h[t].next in h
  {
    Requeue(h, h[s].prev, h[t].next)
  }

  /** The relinking one iteration of `undo` does for a deleted run with ends s and t. */
  ghost function UnDelete<T>(h: Links<T>, s: T, t: T): Links<T>
    requires s in h && t in h && h[s].prev in h && h[t].next in h
    requires Requeue(h, h[s].prev, s)[t].next in h
  {
    var g := Requeue(h, h[s].prev, s);
    Requeue(g, t, g[t].next)
  }

  /** The relinking one iteration of `undo` does for a moved run: back from between b2 and a2
      to between b1 and a1. */
  ghost function UnMove<T>(h: Links<T>, b1: T, a1: T, b2: T, a2: T): Links<T>
    requires b1 in h && a1 in h && b2 in h && a2 in h && h[b2].next in h
    requires Requeue(h, b1, h[b2].next)[a2].prev in h
  {
    var g1 := Requeue(h, b1, h[b2].next);
    var g2 := Requeue(g1, g1[a2].prev, a1);
    Requeue(g2, b2, a2)
  }

  /** What `undo` needs of the links for c. */
  ghost predicate Ends<T>(h: Links<T>, c: Change<T>) {
    && |c.seg| > 0
    && var s, t := c.seg[0], c.seg[|c.seg| - 1];
    && s in h && t in h && h[s].prev in h && h[t].next in h
    && (c.Deleted? ==> Requeue(h, h[s].prev, s)[t].next in h)
    && (c.Moved? ==>
          && c.b1 in h && c.a1 in h && c.b2 in h && c.a2 in h && h[c.b2].next in h
          && Requeue(h, c.b1, h[c.b2].next)[c.a2].prev in h)
  }

  ghost function UndoLinks<T>(h: Links<T>, c: Change<T>): Links<T>
    requires Ends(h, c)
  {
    match c
    case Added(_, seg) => UnAdd(h, seg[0], seg[|seg| - 1])
    case Deleted(_, seg) => UnDelete(h, seg[0], seg[|seg| - 1])
    case Moved(_, _, _, b1, a1, b2, a2) => UnMove(h, b1, a1, b2, a2)
  }

  /** What one undo step establishes: the ring before the change, links from which the same
      step in the other direction (a redo) is possible, and exactly inverts it. */
  ghost predicate Steps<T>(h: Links<T>, r: seq<T>, c: Change<T>)
    requires Fits(r, c) && Ends(h, c)
  {
    var g, q := UndoLinks(h, c), UndoRing(r, c);
    && CanUndo(g, q, Inverse(c)) && UndoRing(q, Inverse(c)) == r
    && Ends(g, Inverse(c)) && UndoLinks(g, Inverse(c)) == h
    && g.Keys == h.Keys
    && (forall x :: x in h && x !in r && x !in q ==> g[x] == h[x])
  }




  /** Undoing an addition is cutting the run out of the ring. */
  lemma AddedLinks<T>(h: Links<T>, r: seq<T>, at: nat, seg: seq<T>)
    requires IsRing(h, r) && Fits(r, Added(at, seg))
    ensures var c, p, a := Added(at, seg), r[at - 1], At(r, at + |seg|);
      && p in h && a in h && Ends(h, c) && UndoLinks(h, c) == Unlink(h, p, a)
  {
    RingRun(h, r, at, |seg|);
    CutEnds(r, at, |seg|);
  }

  lemma AddedRing<T>(h: Links<T>, r: seq<T>, at: nat, seg: seq<T>)
    requires IsRing(h, r) && Fits(r, Added(at, seg))
    requires r[at - 1] in h && At(r, at + |seg|) in h
    ensures IsRing(Unlink(h, r[at - 1], At(r, at + |seg|)), Cut(r, at, |seg|))
    ensures Fits(Cut(r, at, |seg|), Deleted(at, seg))
    ensures Splice(Cut(r, at, |seg|), at, seg) == r
  {
    RingCut(h, r, at, |seg|);
    CutNoDup(r, at, |seg|);
    SpliceCut(r, at, |seg|);
  }

  lemma AddedRemembers<T>(h: Links<T>, r: seq<T>, at: nat, seg: seq<T>)
    requires IsRing(h, r) && Fits(r, Added(at, seg))
    requires r[at - 1] in h && At(r, at + |seg|) in h
    requires Fits(Cut(r, at, |seg|), Deleted(at, seg))
    ensures Remembers(Unlink(h, r[at - 1], At(r, at + |seg|)), Cut(r, at, |seg|), Deleted(at, seg))
  {
    CutEnds(r, at, |seg|);
    CutRun(h, r, at, |seg|);
  }

  /** Undoing a deletion is splicing the run back in. */
  lemma DeletedLinks<T>(h: Links<T>, r: seq<T>, at: nat, seg: seq<T>)
    requires IsRing(h, r) && Fits(r, Deleted(at, seg)) && Remembers(h, r, Deleted(at, seg))
    ensures var c, p, a := Deleted(at, seg), r[at - 1], At(r, at);
      && p in h && a in h && Ends(h, c) && UndoLinks(h, c) == Relink(h, p, seg[0], seg[|seg| - 1], a)
  {
    RingAt(h, r, at - 1);
    RingAt(h, r, if at == |r| then 0 else at);
    assert r[at - 1] in r;
  }

  lemma AddedStep<T>(h: Links<T>, r: seq<T>, c: Change<T>)
    requires CanUndo(h, r, c) && c.Added?
    ensures Ends(h, c) && Steps(h, r, c)
  {
    var at, seg := c.at, c.seg;
    var p, a := r[at - 1], At(r, at + |seg|);
    var q := Cut(r, at, |seg|);
    AddedLinks(h, r, at, seg);
    AddedRing(h, r, at, seg);
    AddedRemembers(h, r, at, seg);
    var g := Unlink(h, p, a);
    CutEnds(r, at, |seg|);
    DeletedLinks(g, q, at, seg);
    CutInverse(h, r, at, |seg|);
  }

  lemma DeletedStep<T>(h: Links<T>, r: seq<T>, c: Change<T>)
    requires CanUndo(h, r, c) && c.Deleted?
    ensures Ends(h, c) && Steps(h, r, c)
  {
    hide IsRing, Chain, NoDup, Cut, Splice, Unlink, Relink, Requeue, Ends, UndoLinks;
    var at, seg := c.at, c.seg;
    var p, a := r[at - 1], At(r, at);
    var q := Splice(r, at, seg);
    DeletedLinks(h, r, at, seg);
    RingSplice(h, r, at, seg);
    var g := Relink(h, p, seg[0], seg[|seg| - 1], a);
    RelinkIs(h, p, seg[0], seg[|seg| - 1], a);
    CutSplice(r, at, seg);
    SpliceNeighbours(r, at, seg);
    AddedLinks(g, q, at, seg);
    SpliceInverse(h, r, at, seg);
    SplicedIn(r, at, seg);
  }

  /** What relinking a run changes, and what it does not. */
  lemma RelinkIs<T>(h: Links<T>, p: T, s: T, t: T, a: T)
    requires p in h && s in h && t in h && a in h
    ensures s in Requeue(h, p, s) && t in Requeue(h, p, s) && a in Requeue(h, p, s)
    ensures Relink(h, p, s, t, a) == Requeue(Requeue(h, p, s), t, a) && Relink(h, p, s, t, a).Keys == h.Keys
    ensures forall x :: x in h && x != p && x != s && x != t && x != a ==> Relink(h, p, s, t, a)[x] == h[x]
  {
  }

  lemma SplicedIn<T>(r: seq<T>, at: nat, seg: seq<T>)
    requires 1 <= at <= |r| && |seg| > 0
    ensures var q := Splice(r, at, seg);
      && r[at - 1] in r && At(r, at) in r && seg[0] in q && seg[|seg| - 1] in q
      && |q| == |r| + |seg|
  {
    var q := Splice(r, at, seg);
    assert seg[0] == q[at] && seg[|seg| - 1] == q[at + |seg| - 1];
    assert At(r, at) == r[if at == |r| then 0 else at];
  }

  /** A run s..t between b2 and a2, and the pair b1, a1 of neighbours it is to go between. */
  ghost predicate MoveEnds<T>(h: Links<T>, b1: T, a1: T, b2: T, a2: T, s: T, t: T) {
    && b1 in h && a1 in h && b2 in h && a2 in h && s in h && t in h
    && s != b1 && s != a1 && s != b2 && s != a2
    && t != b1 && t != a1 && t != b2 && t != a2
    && b1 != b2 && a1 != a2
    && h[b2].next == s && h[s].prev == b2 && h[t].next == a2 && h[a2].prev == t
    && h[b1].next == a1 && h[a1].prev == b1
  }

  ghost function MoveRun<T>(h: Links<T>, b1: T, a1: T, b2: T, a2: T, s: T, t: T): Links<T>
    requires b1 in h && a1 in h && b2 in h && a2 in h && s in h && t in h
  {
    Relink(Unlink(h, b2, a2), b1, s, t, a1)
  }

  lemma UnMoveAt<T>(h: Links<T>, b1: T, a1: T, b2: T, a2: T, s: T, t: T, x: T)
    requires MoveEnds(h, b1, a1, b2, a2, s, t) && x in h
    ensures Requeue(h, b1, h[b2].next)[a2].prev == t
    ensures UnMove(h, b1, a1, b2, a2)[x] == MoveRun(h, b1, a1, b2, a2, s, t)[x]
  {
    assert Requeue(h, b1, s)[a2].prev == t;
  }

  /** The three relinks of `undo` (and of `move`) cut the run out and splice it in. */
  lemma UnMoveIsMoveRun<T>(h: Links<T>, b1: T, a1: T, b2: T, a2: T, s: T, t: T)
    requires MoveEnds(h, b1, a1, b2, a2, s, t)
    ensures Requeue(h, b1, h[b2].next)[a2].prev == t
    ensures UnMove(h, b1, a1, b2, a2) == MoveRun(h, b1, a1, b2, a2, s, t)
  {
    UnMoveAt(h, b1, a1, b2, a2, s, t, s);
    var u, v := UnMove(h, b1, a1, b2, a2), MoveRun(h, b1, a1, b2, a2, s, t);
    assert u.Keys == h.Keys && v.Keys == h.Keys;
    hide UnMove, MoveRun, Requeue, MoveEnds;
    forall x | x in h ensures u[x] == v[x] {
      UnMoveAt(h, b1, a1, b2, a2, s, t, x);
    }
  }
  lemma MoveRunBack<T>(h: Links<T>, b1: T, a1: T, b2: T, a2: T, s: T, t: T)
    requires MoveEnds(h, b1, a1, b2, a2, s, t)
    ensures MoveRun(MoveRun(h, b1, a1, b2, a2, s, t), b2, a2, b1, a1, s, t) == h
  {
    var v := MoveRun(h, b1, a1, b2, a2, s, t);
    var w := MoveRun(v, b2, a2, b1, a1, s, t);
    forall x | x in h ensures w[x].next == h[x].next && w[x].prev == h[x].prev {
    }
  }

  /** What a moved run's ends and its four neighbours satisfy. */
  lemma MovedEnds<T>(h: Links<T>, r: seq<T>, c: Change<T>)
    requires IsRing(h, r) && Fits(r, c) && c.Moved?
    ensures MoveEnds(h, c.b1, c.a1, c.b2, c.a2, c.seg[0], c.seg[|c.seg| - 1])
    ensures c.b2 == r[c.dst - 1] && c.a2 == At(r, c.dst + |c.seg|)
  {
    var n, k, i := |c.seg|, c.dst, c.src;
    var e := if k + n == |r| then 0 else k + n;
    RingAt(h, r, k - 1);
    RingAt(h, r, k);
    RingAt(h, r, k + n - 1);
    RingAt(h, r, e);
    var b := if i - 1 < k then i - 1 else i - 1 + n;
    var q := Cut(r, k, n);
    var i' := if i == |q| then 0 else i;
    var a := if i' < k then i' else i' + n;
    assert c.b1 == r[b] && c.a1 == r[a];
    assert c.b2 == r[k - 1] && c.a2 == r[e];
    RingAt(h, r, b);
    RingAt(h, r, a);
    SameIndex(r, k, b); SameIndex(r, k, a); SameIndex(r, k, k - 1); SameIndex(r, k, e);
    SameIndex(r, k + n - 1, b); SameIndex(r, k + n - 1, a);
    SameIndex(r, k + n - 1, k - 1); SameIndex(r, k + n - 1, e);
    SameIndex(r, b, k - 1); SameIndex(r, a, e);
  }

  lemma MovedLinks<T>(h: Links<T>, r: seq<T>, c: Change<T>)
    requires IsRing(h, r) && Fits(r, c) && c.Moved?
    ensures MoveEnds(h, c.b1, c.a1, c.b2, c.a2, c.seg[0], c.seg[|c.seg| - 1])
    ensures Ends(h, c)
    ensures UndoLinks(h, c) == MoveRun(h, c.b1, c.a1, c.b2, c.a2, c.seg[0], c.seg[|c.seg| - 1])
  {
    MovedEnds(h, r, c);
    UnMoveIsMoveRun(h, c.b1, c.a1, c.b2, c.a2, c.seg[0], c.seg[|c.seg| - 1]);
  }

  lemma RingNoDup<T>(h: Links<T>, r: seq<T>)
    requires IsRing(h, r)
    ensures NoDup(r)
  {
  }

  lemma MovedRing<T>(h: Links<T>, r: seq<T>, c: Change<T>)
    requires IsRing(h, r) && Fits(r, c) && c.Moved?
    requires MoveEnds(h, c.b1, c.a1, c.b2, c.a2, c.seg[0], c.seg[|c.seg| - 1])
    ensures IsRing(MoveRun(h, c.b1, c.a1, c.b2, c.a2, c.seg[0], c.seg[|c.seg| - 1]), UndoRing(r, c))
  {
    hide IsRing, Chain, NoDup;
    var n, q, g1 := |c.seg|, Cut(r, c.dst, |c.seg|), Unlink(h, c.b2, c.a2);
    RingNoDup(h, r);
    MovedEnds(h, r, c);
    RingCut(h, r, c.dst, n);
    CutEnds(r, c.dst, n);
    CutRun(h, r, c.dst, n);
    RingSplice(g1, q, c.src, c.seg);
  }

  lemma MovedFits<T>(r: seq<T>, c: Change<T>)
    requires Fits(r, c) && c.Moved?
    ensures Fits(UndoRing(r, c), Inverse(c)) && UndoRing(UndoRing(r, c), Inverse(c)) == r
  {
    hide Splice, At, NoDup;
    CutSplice(Cut(r, c.dst, |c.seg|), c.src, c.seg);
    SpliceCut(r, c.dst, |c.seg|);
  }

  lemma MovedFrame<T>(h: Links<T>, r: seq<T>, c: Change<T>)
    requires IsRing(h, r) && Fits(r, c) && c.Moved? && Ends(h, c)
    ensures forall x :: x in h && x !in r ==> UndoLinks(h, c)[x] == h[x]
  {
    MovedLinks(h, r, c);
    assert c.seg[0] == r[c.dst] && c.seg[|c.seg| - 1] == r[c.dst + |c.seg| - 1];
    var w := Cut(r, c.dst, |c.seg|);
    assert c.b1 in r && c.a1 in r && c.b2 in r && c.a2 in r;
  }

  lemma MovedStep<T>(h: Links<T>, r: seq<T>, c: Change<T>)
    requires CanUndo(h, r, c) && c.Moved?
    ensures Ends(h, c) && Steps(h, r, c)
  {
    hide IsRing, Chain, NoDup, Cut, Splice;
    var s, t := c.seg[0], c.seg[|c.seg| - 1];
    MovedLinks(h, r, c);
    MovedRing(h, r, c);
    MovedFits(r, c);
    MovedFrame(h, r, c);
    var g, q := UndoLinks(h, c), UndoRing(r, c);
    MovedLinks(g, q, Inverse(c));
    MoveRunBack(h, c.b1, c.a1, c.b2, c.a2, s, t);
  }

  /** Every undoable change steps. */
  lemma UndoStep<T>(h: Links<T>, r: seq<T>, c: Change<T>)
    requires CanUndo(h, r, c)
    ensures Ends(h, c) && Steps(h, r, c)
  {
    match c
    case Added(_, _) => AddedStep(h, r, c);
    case Deleted(_, _) => DeletedStep(h, r, c);
    case Moved(_, _, _, _, _, _, _) => MovedStep(h, r, c);
  }

  /** The whole log can be undone from links h and ring r, and leads back to ring base. */
  ghost predicate Undoable<T>(h: Links<T>, r: seq<T>, log: seq<Change<T>>, base: seq<T>)
    decreases |log|
  {
    if log == [] then
      IsRing(h, r) && r == base
    else
      var c, rest := log[|log| - 1], log[..|log| - 1];
      && CanUndo(h, r, c) && Ends(h, c)
      && Undoable(UndoLinks(h, c), UndoRing(r, c), rest, base)
  }

  /** The log that leads the other way. */
  ghost function Reversed<T>(log: seq<Change<T>>): (rev: seq<Change<T>>)
    ensures |rev| == |log|
  {
    if log == [] then [] else [Inverse(log[|log| - 1])] + Reversed(log[..|log| - 1])
  }

  /** Undoing a last change, with the path so far ready to be walked back from here (done),
      leaves a shorter log and a longer way back. */
  lemma UndoLast<T>(h: Links<T>, r: seq<T>, log: seq<Change<T>>, base: seq<T>, done: seq<Change<T>>, top: seq<T>)
    requires log != [] && Undoable(h, r, log, base) && Undoable(h, r, done, top)
    ensures var c := log[|log| - 1];
      && Ends(h, c) && Fits(r, c)
      && Undoable(UndoLinks(h, c), UndoRing(r, c), log[..|log| - 1], base)
      && Undoable(UndoLinks(h, c), UndoRing(r, c), done + [Inverse(c)], top)
  {
    var c := log[|log| - 1];
    UndoStep(h, r, c);
    assert (done + [Inverse(c)])[..|done|] == done;
  }

  lemma UndoableIsRing<T>(h: Links<T>, r: seq<T>, log: seq<Change<T>>, base: seq<T>)
    requires Undoable(h, r, log, base)
    ensures IsRing(h, r)
  {
  }

  lemma RingExtends<T>(h: Links<T>, g: Links<T>, r: seq<T>)
    requires IsRing(h, r)
    requires Sub(h, g)
    ensures IsRing(g, r)
  {
    forall i | 0 <= i < |r| ensures LinkedAt(g, r, i) {
      RingAt(h, r, i);
    }
  }

  lemma EndsExtend<T>(h: Links<T>, g: Links<T>, c: Change<T>)
    requires Ends(h, c) && Sub(h, g)
    ensures Ends(g, c) && Sub(UndoLinks(h, c), UndoLinks(g, c))
  {
    var s, t := c.seg[0], c.seg[|c.seg| - 1];
    match c
    case Added(_, _) =>
      RequeueExtends(h, g, h[s].prev, h[t].next);
    case Deleted(_, _) =>
      RequeueExtends(h, g, h[s].prev, s);
      var h1, g1 := Requeue(h, h[s].prev, s), Requeue(g, h[s].prev, s);
      RequeueExtends(h1, g1, t, h1[t].next);
    case Moved(_, _, _, b1, a1, b2, a2) =>
      RequeueExtends(h, g, b1, h[b2].next);
      var h1, g1 := Requeue(h, b1, h[b2].next), Requeue(g, b1, h[b2].next);
      RequeueExtends(h1, g1, h1[a2].prev, a1);
      RequeueExtends(Requeue(h1, h1[a2].prev, a1), Requeue(g1, h1[a2].prev, a1), b2, a2);
  }

  /** Nodes the log knows nothing about do not disturb it. */
  lemma {:induction false} UndoableExtends<T>(h: Links<T>, g: Links<T>, r: seq<T>, log: seq<Change<T>>, base: seq<T>)
    requires Undoable(h, r, log, base)
    requires Sub(h, g)
    ensures Undoable(g, r, log, base)
    decreases |log|
  {
    if log == [] {
      RingExtends(h, g, r);
    } else {
      var c := log[|log| - 1];
      assert CanUndo(g, r, c) by {
        RingExtends(h, g, r);
        if c.Deleted? { ChainExtends(h, g, c.seg); }
      }
      EndsExtend(h, g, c);
      UndoableExtends(UndoLinks(h, c), UndoLinks(g, c), UndoRing(r, c), log[..|log| - 1], base);
    }
  }

  /** Doing a change whose undo is d leaves the log, with the change pushed, undoable. */
  lemma Push<T>(h: Links<T>, r: seq<T>, log: seq<Change<T>>, base: seq<T>, d: Change<T>)
    requires Undoable(h, r, log, base) && CanUndo(h, r, d)
    ensures Ends(h, d) && Undoable(UndoLinks(h, d), UndoRing(r, d), log + [Inverse(d)], base)
  {
    UndoStep(h, r, d);
    assert (log + [Inverse(d)])[..|log|] == log;
  }

  /** `insqueue`: a new node linked in between p and a. */
  ghost function Insert<T>(h: Links<T>, x: T, p: T, a: T): Links<T>
    requires p in h && a in h
  {
    Requeue(Requeue(h[x := Link(a, p)], x, a), p, x)
  }

  /** The new node's own links do not matter. */
  lemma InsertAny<T>(h: Links<T>, x: T, link: Link<T>, p: T, a: T)
    requires p in h && a in h && x !in h
    ensures Requeue(Requeue(h[x := link], x, a), p, x) == Insert(h, x, p, a)
    ensures Insert(h, x, p, a).Keys == h.Keys + {x}
  {
  }

  lemma InsertRing<T>(h: Links<T>, r: seq<T>, at: nat, x: T)
    requires IsRing(h, r) && 1 <= at <= |r| && x !in h
    ensures IsRing(Insert(h, x, r[at - 1], At(r, at)), Splice(r, at, [x]))
  {
    var g, p, a := h[x := Link(At(r, at), r[at - 1])], r[at - 1], At(r, at);
    RingExtends(h, g, r);
    assert Chain(g, [x]) by { assert ChainedAt(g, [x], 0); }
    RingSplice(g, r, at, [x]);
    assert Insert(h, x, p, a) == Relink(g, p, x, x, a);
  }

  /** h is h0 with the nodes of seg linked in, one after the other, before position at of r0. */
  ghost predicate Grown<T>(h0: Links<T>, r0: seq<T>, h: Links<T>, at: nat, seg: seq<T>) {
    && IsRing(h0, r0) && 1 <= at <= |r0|
    && IsRing(h, Splice(r0, at, seg))
    && (forall x :: x in seg ==> x !in h0)
    && r0[at - 1] in h && At(r0, at) in h
    && Sub(h0, Unlink(h, r0[at - 1], At(r0, at)))
  }

  lemma GrownStart<T>(h: Links<T>, r: seq<T>, at: nat)
    requires IsRing(h, r) && 1 <= at <= |r|
    ensures Grown(h, r, h, at, [])
  {
    RingAt(h, r, at - 1);
    RingAt(h, r, if at == |r| then 0 else at);
    assert Splice(r, at, []) == r;
  }

  lemma GrownMore<T>(h0: Links<T>, r0: seq<T>, h: Links<T>, at: nat, seg: seq<T>, x: T)
    requires Grown(h0, r0, h, at, seg) && x !in h && x !in h0
    ensures var r := Splice(r0, at, seg);
      Grown(h0, r0, Insert(h, x, r[at + |seg| - 1], At(r, at + |seg|)), at, seg + [x])
  {
    var r, n := Splice(r0, at, seg), at + |seg|;
    var p0, a0 := r0[at - 1], At(r0, at);
    InsertRing(h, r, n, x);
    assert Splice(r, n, [x]) == Splice(r0, at, seg + [x]);
    var p, a := r[n - 1], At(r, n);
    assert a == a0;
    assert if seg == [] then p == p0 else p in seg;
    var g := Insert(h, x, p, a);
    RingAt(h, r, at - 1);
    assert r[at - 1] == p0;
    forall y | y in h0 ensures y in Unlink(g, p0, a0) && Unlink(g, p0, a0)[y] == h0[y] {
      assert y != x && Unlink(h, p0, a0)[y] == h0[y];
    }
  }

  /** The undo entry for the run added so far leads back to h0 as far as the older log sees. */
  lemma GrownUndoable<T>(h0: Links<T>, r0: seq<T>, log0: seq<Change<T>>, base: seq<T>, h: Links<T>, at: nat, seg: seq<T>)
    requires Undoable(h0, r0, log0, base) && Grown(h0, r0, h, at, seg) && seg != []
    ensures Undoable(h, Splice(r0, at, seg), log0 + [Added(at, seg)], base)
  {
    var c, r := Added(at, seg), Splice(r0, at, seg);
    hide Undoable, Grown, CanUndo, Ends, Splice;
    GrownUndone(h0, r0, h, at, seg);
    UndoableExtends(h0, UndoLinks(h, c), r0, log0, base);
    UndoableMore(h, r, log0, base, c);
  }

  /** Undoing the run added so far leads back to what h0 held. */
  lemma GrownUndone<T>(h0: Links<T>, r0: seq<T>, h: Links<T>, at: nat, seg: seq<T>)
    requires Grown(h0, r0, h, at, seg) && seg != []
    ensures var c, r := Added(at, seg), Splice(r0, at, seg);
      CanUndo(h, r, c) && Ends(h, c) && Sub(h0, UndoLinks(h, c)) && UndoRing(r, c) == r0
  {
    hide IsRing, NoDup, Ends, UndoLinks, Splice, Unlink, Sub;
    CutSplice(r0, at, seg);
    SpliceNeighbours(r0, at, seg);
    AddedLinks(h, Splice(r0, at, seg), at, seg);
  }

  lemma UndoableMore<T>(h: Links<T>, r: seq<T>, log: seq<Change<T>>, base: seq<T>, c: Change<T>)
    requires CanUndo(h, r, c) && Ends(h, c) && Undoable(UndoLinks(h, c), UndoRing(r, c), log, base)
    ensures Undoable(h, r, log + [c], base)
  {
    hide CanUndo, Ends, UndoLinks, UndoRing;
    assert (log + [c])[..|log|] == log;
  }

  lemma {:induction false} BaseRoot<T>(h: Links<T>, r: seq<T>, log: seq<Change<T>>, base: seq<T>)
    requires Undoable(h, r, log, base)
    ensures |r| > 0 && |base| > 0 && r[0] == base[0]
    decreases |log|
  {
    if log != [] {
      var c := log[|log| - 1];
      BaseRoot(UndoLinks(h, c), UndoRing(r, c), log[..|log| - 1], base);
      assert UndoRing(r, c)[0] == r[0];
    }
  }

  // ---- Which nodes the log holds that the ring does not ----

  ghost predicate Apart<T>(s: seq<T>, t: seq<T>) {
    forall x :: x in s ==> x !in t
  }

  /** A node is added at most once and deleted at most once, in that order: nothing deleted
      along the path is added again later on it. */
  ghost predicate Settled<T>(log: seq<Change<T>>) {
    forall i, j :: 0 <= i < j < |log| && log[i].Deleted? && log[j].Added? ==> Apart(log[i].seg, log[j].seg)
  }

  /** The nodes in deleted runs. */
  ghost function Dead<T>(log: seq<Change<T>>): set<T> {
    if log == [] then {}
    else
      var c := log[|log| - 1];
      Dead(log[..|log| - 1]) + (if c.Deleted? then Elems(c.seg) else {})
  }

  /** The nodes in added runs. */
  ghost function Born<T>(log: seq<Change<T>>): set<T> {
    if log == [] then {}
    else
      var c := log[|log| - 1];
      Born(log[..|log| - 1]) + (if c.Added? then Elems(c.seg) else {})
  }

  /** How a change moves nodes into and out of the ring. */
  lemma UndoElems<T>(h: Links<T>, r: seq<T>, c: Change<T>)
    requires CanUndo(h, r, c)
    ensures c.Added? ==> Elems(r) == Elems(UndoRing(r, c)) + Elems(c.seg)
    ensures c.Deleted? ==> Elems(UndoRing(r, c)) == Elems(r) + Elems(c.seg)
    ensures c.Moved? ==> Elems(UndoRing(r, c)) == Elems(r)
  {
    match c
    case Added(at, seg) => CutNoDup(r, at, |seg|);
    case Deleted(at, seg) => SpliceNoDup(r, at, seg);
    case Moved(src, dst, seg, _, _, _, _) =>
      CutNoDup(r, dst, |seg|);
      SpliceNoDup(Cut(r, dst, |seg|), src, seg);
  }

  /** A deleted run is off the ring. */
  lemma {:induction false} DeadOffRing<T>(h: Links<T>, r: seq<T>, log: seq<Change<T>>, base: seq<T>, i: nat)
    requires Undoable(h, r, log, base) && Settled(log) && i < |log| && log[i].Deleted?
    ensures Apart(log[i].seg, r)
    decreases |log|
  {
    var c, seg := log[|log| - 1], log[i].seg;
    if i < |log| - 1 {
      var q, rest := UndoRing(r, c), log[..|log| - 1];
      assert rest[i] == log[i];
      DeadOffRing(UndoLinks(h, c), q, rest, base, i);
      UndoElems(h, r, c);
      assert c.Added? ==> Apart(seg, c.seg);
      forall x | x in seg ensures x !in r {
        assert x !in Elems(q);
        assert c.Added? ==> x !in Elems(c.seg);
        assert x !in Elems(r);
      }
    }
  }

  /** A deleted run is still chained, and ends at a node outside itself: walking it from its
      first node by `next` visits it and stops. */
  lemma {:induction false} DeadRun<T>(h: Links<T>, r: seq<T>, log: seq<Change<T>>, base: seq<T>, i: nat)
    requires Undoable(h, r, log, base) && Settled(log) && i < |log| && log[i].Deleted?
    ensures Chain(h, log[i].seg)
    ensures h[log[i].seg[|log[i].seg| - 1]].next !in log[i].seg
    decreases |log|
  {
    var c, seg := log[|log| - 1], log[i].seg;
    if i == |log| - 1 {
      assert At(r, c.at) in r;
    } else {
      UndoStep(h, r, c);
      var g, q, rest := UndoLinks(h, c), UndoRing(r, c), log[..|log| - 1];
      assert rest[i] == log[i];
      DeadRun(g, q, rest, base, i);
      DeadOffRing(g, q, rest, base, i);
      DeadOffRing(h, r, log, base, i);
      ChainFrame(g, h, seg);
      assert seg[|seg| - 1] in seg;
    }
  }

  /** No node is in two deleted runs. */
  lemma {:induction false} DeadRunsApart<T>(h: Links<T>, r: seq<T>, log: seq<Change<T>>, base: seq<T>, i: nat, j: nat)
    requires Undoable(h, r, log, base) && Settled(log)
    requires i < j < |log| && log[i].Deleted? && log[j].Deleted?
    ensures Apart(log[i].seg, log[j].seg)
    decreases |log|
  {
    hide UndoLinks, UndoRing, IsRing, Fits, Remembers, Ends;
    var c, rest := log[|log| - 1], log[..|log| - 1];
    assert rest[i] == log[i];
    if j < |rest| {
      assert rest[j] == log[j];
      DeadRunsApart(UndoLinks(h, c), UndoRing(r, c), rest, base, i, j);
    } else {
      var q := UndoRing(r, c);
      DeadOffRing(UndoLinks(h, c), q, rest, base, i);
      UndoElems(h, r, c);
      forall x | x in c.seg ensures x in q {
        assert x in Elems(q);
      }
    }
  }

  /** Every node the ring or the log knows now, it knew before, and no others. */
  lemma {:induction false} Accounting<T>(h: Links<T>, r: seq<T>, log: seq<Change<T>>, base: seq<T>)
    requires Undoable(h, r, log, base)
    ensures Elems(r) + Dead(log) == Elems(base) + Born(log)
    decreases |log|
  {
    if log != [] {
      var c := log[|log| - 1];
      Accounting(UndoLinks(h, c), UndoRing(r, c), log[..|log| - 1], base);
      UndoElems(h, r, c);
    }
  }

  lemma {:induction false} ReversedAt<T>(log: seq<Change<T>>, i: nat)
    requires i < |log|
    ensures Reversed(log)[i] == Inverse(log[|log| - 1 - i])
  {
    if i > 0 {
      ReversedAt(log[..|log| - 1], i - 1);
    }
  }

  lemma ReversedSettled<T>(log: seq<Change<T>>)
    requires Settled(log)
    ensures Settled(Reversed(log))
  {
    var rev := Reversed(log);
    forall i, j | 0 <= i < j < |rev| && rev[i].Deleted? && rev[j].Added?
      ensures Apart(rev[i].seg, rev[j].seg)
    {
      ReversedAt(log, i);
      ReversedAt(log, j);
      assert Apart(log[|log| - 1 - j].seg, log[|log| - 1 - i].seg);
    }
  }

  lemma {:induction false} DeadMember<T>(log: seq<Change<T>>, x: T)
    ensures x in Dead(log) <==> exists i :: 0 <= i < |log| && log[i].Deleted? && x in log[i].seg
    ensures x in Born(log) <==> exists i :: 0 <= i < |log| && log[i].Added? && x in log[i].seg
  {
    if log != [] {
      var rest := log[..|log| - 1];
      DeadMember(rest, x);
      assert forall i :: 0 <= i < |rest| ==> rest[i] == log[i];
    }
  }

  /** Reversing the path exchanges what it adds with what it deletes. */
  lemma ReversedSwapsElems<T>(log: seq<Change<T>>)
    ensures Dead(Reversed(log)) == Born(log)
  {
    var rev := Reversed(log);
    forall i | 0 <= i < |log| ensures rev[i] == Inverse(log[|log| - 1 - i]) {
      ReversedAt(log, i);
    }
    forall x | x in Dead(rev) ensures x in Born(log) {
      DeadMember(rev, x);
      DeadMember(log, x);
      var i :| 0 <= i < |rev| && rev[i].Deleted? && x in rev[i].seg;
      assert log[|log| - 1 - i].Added?;
    }
    forall x | x in Born(log) ensures x in Dead(rev) {
      DeadMember(rev, x);
      DeadMember(log, x);
      var i :| 0 <= i < |log| && log[i].Added? && x in log[i].seg;
      assert rev[|log| - 1 - i] == Inverse(log[|log| - 1 - (|log| - 1 - i)]);
    }
  }

  lemma PushElems<T>(log: seq<Change<T>>, c: Change<T>)
    ensures Dead(log + [c]) == Dead(log) + (if c.Deleted? then Elems(c.seg) else {})
  {
    assert (log + [c])[..|log|] == log;
  }

  lemma PushSettled<T>(log: seq<Change<T>>, c: Change<T>)
    requires Settled(log)
    requires c.Added? ==> forall i :: 0 <= i < |log| && log[i].Deleted? ==> Apart(log[i].seg, c.seg)
    ensures Settled(log + [c])
  {
  }

  /** A run of nodes the links do not hold yet is apart from every deleted run. */
  lemma FreshRunApart<T>(h: Links<T>, r: seq<T>, log: seq<Change<T>>, base: seq<T>, seg: seq<T>)
    requires Undoable(h, r, log, base) && Settled(log)
    requires forall x :: x in seg ==> x !in h
    ensures forall i :: 0 <= i < |log| && log[i].Deleted? ==> Apart(log[i].seg, seg)
  {
    forall i | 0 <= i < |log| && log[i].Deleted? ensures Apart(log[i].seg, seg) {
      DeadRun(h, r, log, base, i);
    }
  }

  // ---- The undo stack as stored ----

  datatype Kind = UADD | UDEL | UMOV | VMOV

  /** Flipping the low bit of the stored type. */
  function Toggle(k: Kind): Kind {
    match k case UADD => UDEL case UDEL => UADD case UMOV => VMOV case VMOV => UMOV
  }

  datatype Entry<T> = Entry(kind: Kind, h: T, t: T)

  function Width<T>(c: Change<T>): nat {
    if c.Moved? then 2 else 1
  }

  /** e is what the stack stores for c. A move takes two entries, either kind of either. */
  ghost predicate Stores<T>(e: seq<Entry<T>>, c: Change<T>) {
    && |e| == Width(c) && |c.seg| > 0
    && match c
       case Added(_, seg) => e[0] == Entry(UADD, seg[0], seg[|seg| - 1])
       case Deleted(_, seg) => e[0] == Entry(UDEL, seg[0], seg[|seg| - 1])
       case Moved(_, _, _, b1, a1, b2, a2) =>
         && e[0].kind in {UMOV, VMOV} && e[0].h == b1 && e[0].t == a1
         && e[1].kind in {UMOV, VMOV} && e[1].h == b2 && e[1].t == a2
  }

  ghost predicate Encodes<T>(stack: seq<Entry<T>>, log: seq<Change<T>>)
    decreases |log|
  {
    if log == [] then stack == []
    else
      var c := log[|log| - 1];
      && |stack| >= Width(c)
      && Stores(stack[|stack| - Width(c)..], c)
      && Encodes(stack[..|stack| - Width(c)], log[..|log| - 1])
  }

  lemma EncodesPush<T>(stack: seq<Entry<T>>, log: seq<Change<T>>, e: seq<Entry<T>>, c: Change<T>)
    requires Encodes(stack, log) && Stores(e, c)
    ensures Encodes(stack + e, log + [c])
  {
    assert (log + [c])[..|log|] == log;
    assert (stack + e)[..|stack|] == stack;
    assert (stack + e)[|stack|..] == e;
  }

  ghost function Rev<T>(s: seq<T>): (t: seq<T>) {
    seq(|s|, i requires 0 <= i < |s| => s[|s| - 1 - i])
  }

  lemma RevConcat<T>(s: seq<T>, t: seq<T>)
    ensures Rev(s + t) == Rev(t) + Rev(s)
  {
  }

  /** An undone change, stored backwards with its first entry toggled, stores its inverse. */
  lemma StoresInverse<T>(e: seq<Entry<T>>, c: Change<T>)
    requires Stores(e, c)
    ensures Stores(Rev(e[0 := e[0].(kind := Toggle(e[0].kind))]), Inverse(c))
  {
  }
}
