/** Circular doubly linked lists as values: a snapshot of the `next` and `prev` fields of a
    set of nodes, the relink step of the editor's `requeue` macro, and what cutting a run of
    nodes out of a ring, or splicing one back in, does to such a snapshot. */
module Rings {

  datatype Link<T> = Link(next: T, prev: T)

  type Links<T> = map<T, Link<T>>

  ghost predicate Differ<T>(s: seq<T>, i: nat, j: nat)
    requires i < |s| && j < |s|
  {
    s[i] != s[j]
  }

  ghost predicate NoDup<T>(s: seq<T>) {
    forall i, j :: 0 <= i < j < |s| ==> Differ(s, i, j)
  }

  ghost function Elems<T>(s: seq<T>): set<T> {
    set x | x in s
  }

  /** The element at index i of a circular sequence; index |r| is the root again. */
  ghost function At<T>(r: seq<T>, i: nat): T
    requires |r| > 0 && i <= |r|
  {
    if i == |r| then r[0] else r[i]
  }

  /** The element before index i of a circular sequence. */
  ghost function Before<T>(r: seq<T>, i: nat): T
    requires i < |r|
  {
    if i == 0 then r[|r| - 1] else r[i - 1]
  }

  /** Two linked neighbours, from one position of a ring. */
  ghost predicate LinkedAt<T>(h: Links<T>, r: seq<T>, i: nat)
    requires i < |r|
  {
    r[i] in h && h[r[i]] == Link(At(r, i + 1), Before(r, i))
  }

  ghost predicate Within<T>(h: Links<T>, s: seq<T>) {
    forall x :: x in s ==> x in h
  }

  /** r lists, from its root on, the nodes of a well-formed circular doubly linked list. */
  ghost predicate IsRing<T>(h: Links<T>, r: seq<T>) {
    |r| > 0 && NoDup(r) && Within(h, r) && forall i :: 0 <= i < |r| ==> LinkedAt(h, r, i)
  }

  ghost predicate ChainedAt<T>(h: Links<T>, s: seq<T>, i: nat)
    requires i < |s|
  {
    && s[i] in h
    && (i < |s| - 1 ==> h[s[i]].next == s[i + 1])
    && (0 < i ==> h[s[i]].prev == s[i - 1])
  }

  /** s is a run of nodes linked to each other; nothing is said about its two ends. */
  ghost predicate Chain<T>(h: Links<T>, s: seq<T>) {
    |s| > 0 && NoDup(s) && Within(h, s) && forall i :: 0 <= i < |s| ==> ChainedAt(h, s, i)
  }

  ghost function Requeue<T>(h: Links<T>, pred: T, succ: T): Links<T>
    requires pred in h && succ in h
  {
    var h1 := h[pred := h[pred].(next := succ)];
    h1[succ := h1[succ].(prev := pred)]
  }

  /** g holds every node of h, with the same links. */
  ghost predicate Sub<T>(h: Links<T>, g: Links<T>) {
    forall x :: x in h ==> x in g && g[x] == h[x]
  }

  lemma RequeueExtends<T>(h: Links<T>, g: Links<T>, pred: T, succ: T)
    requires Sub(h, g) && pred in h && succ in h
    ensures Sub(Requeue(h, pred, succ), Requeue(g, pred, succ))
  {
  }

  ghost function Cut<T>(r: seq<T>, at: nat, n: nat): seq<T>
    requires at + n <= |r|
  {
    r[..at] + r[at + n..]
  }

  ghost function Splice<T>(r: seq<T>, at: nat, s: seq<T>): seq<T>
    requires at <= |r|
  {
    r[..at] + s + r[at..]
  }

  lemma CutSplice<T>(r: seq<T>, at: nat, s: seq<T>)
    requires at <= |r|
    ensures |Splice(r, at, s)| == |r| + |s|
    ensures Splice(r, at, s)[at..at + |s|] == s
    ensures Cut(Splice(r, at, s), at, |s|) == r
  {
  }

  lemma SpliceCut<T>(r: seq<T>, at: nat, n: nat)
    requires at + n <= |r|
    ensures Splice(Cut(r, at, n), at, r[at..at + n]) == r
  {
  }

  lemma SpliceNeighbours<T>(r: seq<T>, at: nat, s: seq<T>)
    requires 1 <= at <= |r| && |s| > 0
    ensures var q := Splice(r, at, s);
      && q[at - 1] == r[at - 1] && At(q, at + |s|) == At(r, at)
      && q[at - 1] in q && At(q, at + |s|) in q
  {
    var q := Splice(r, at, s);
    assert At(q, at + |s|) == q[if at == |r| then 0 else at + |s|];
    assert q[at - 1] in q;
  }

  lemma CutNoDup<T>(r: seq<T>, at: nat, n: nat)
    requires at + n <= |r| && NoDup(r)
    ensures NoDup(Cut(r, at, n)) && NoDup(r[at..at + n])
    ensures forall x :: x in r[at..at + n] ==> x !in Cut(r, at, n)
    ensures Elems(r) == Elems(Cut(r, at, n)) + Elems(r[at..at + n])
  {
    var q := Cut(r, at, n);
    forall i, j | 0 <= i < j < |q| ensures Differ(q, i, j) {
      SameIndex(r, if i < at then i else i + n, if j < at then j else j + n);
    }
    var s := r[at..at + n];
    forall i, j | 0 <= i < j < n ensures Differ(s, i, j) {
      SameIndex(r, at + i, at + j);
    }
    forall x | x in s ensures x !in q {
      var i :| 0 <= i < n && s[i] == x;
      forall j | 0 <= j < |q| ensures q[j] != x {
        SameIndex(r, at + i, if j < at then j else j + n);
      }
    }
    forall x | x in r ensures x in q || x in r[at..at + n] {
      var i :| 0 <= i < |r| && r[i] == x;
      if i < at { assert q[i] == x; } else if i < at + n { assert r[at..at + n][i - at] == x; } else { assert q[i - n] == x; }
    }
  }

  lemma SpliceIndex<T>(r: seq<T>, at: nat, s: seq<T>, i: nat)
    requires at <= |r| && i < |r| + |s|
    ensures i < at ==> Splice(r, at, s)[i] == r[i]
    ensures at <= i < at + |s| ==> Splice(r, at, s)[i] == s[i - at] && s[i - at] in s
    ensures at + |s| <= i ==> Splice(r, at, s)[i] == r[i - |s|]
  {
  }

  lemma SpliceNoDup<T>(r: seq<T>, at: nat, s: seq<T>)
    requires at <= |r| && NoDup(r) && NoDup(s)
    requires forall x :: x in s ==> x !in r
    ensures NoDup(Splice(r, at, s))
    ensures Elems(Splice(r, at, s)) == Elems(r) + Elems(s)
  {
    CutSplice(r, at, s);
    var q := Splice(r, at, s);
    forall i, j | 0 <= i < j < |q| ensures Differ(q, i, j) {
      SpliceIndex(r, at, s, i);
      SpliceIndex(r, at, s, j);
      if j < at || at + |s| <= i || (i < at && at + |s| <= j) {
        SameIndex(r, if i < at then i else i - |s|, if j < at then j else j - |s|);
      } else if at <= i && j < at + |s| {
        SameIndex(s, i - at, j - at);
      } else if i < at {
        assert r[i] in r;
      } else {
        assert r[j - |s|] in r;
      }
    }
    forall x | x in Elems(r) + Elems(s) ensures x in q {
      if x in s {
        var i :| 0 <= i < |s| && s[i] == x;
        assert q[at + i] == x;
      } else {
        var i :| 0 <= i < |r| && r[i] == x;
        assert q[if i < at then i else i + |s|] == x;
      }
    }
  }

  lemma RingAt<T>(h: Links<T>, r: seq<T>, i: nat)
    requires IsRing(h, r) && i < |r|
    ensures LinkedAt(h, r, i)
  {
  }

  lemma ChainAt<T>(h: Links<T>, s: seq<T>, i: nat)
    requires Chain(h, s) && i < |s|
    ensures ChainedAt(h, s, i)
  {
  }

  lemma SameIndex<T>(r: seq<T>, i: nat, j: nat)
    requires NoDup(r) && i < |r| && j < |r|
    ensures r[i] == r[j] <==> i == j
  {
    assert i < j ==> Differ(r, i, j);
    assert j < i ==> Differ(r, j, i);
  }

  lemma CutNeighbours<T>(r: seq<T>, at: nat, n: nat, i: nat)
    requires 1 <= at && n > 0 && at + n <= |r| && i < |r| - n
    ensures var q, k := Cut(r, at, n), if i < at then i else i + n;
      && q[i] == r[k]
      && At(q, i + 1) == (if k == at - 1 then At(r, at + n) else At(r, k + 1))
      && Before(q, i) == (if k == (if at + n == |r| then 0 else at + n) then r[at - 1] else Before(r, k))
  {
  }

  lemma RingCutAt<T>(h: Links<T>, r: seq<T>, at: nat, n: nat, i: nat)
    requires IsRing(h, r) && 1 <= at && n > 0 && at + n <= |r| && i < |r| - n
    ensures LinkedAt(Requeue(h, r[at - 1], At(r, at + n)), Cut(r, at, n), i)
  {
    var q := Cut(r, at, n);
    var k := if i < at then i else i + n;
    var e := if at + n == |r| then 0 else at + n;
    CutNeighbours(r, at, n, i);
    RingAt(h, r, k);
    SameIndex(r, k, at - 1);
    SameIndex(r, k, e);
  }

  /** Linking the node before a run to the node after it takes the run out of the ring, and
      leaves the run's own fields as they were. */
  lemma RingCut<T>(h: Links<T>, r: seq<T>, at: nat, n: nat)
    requires IsRing(h, r) && 1 <= at && n > 0 && at + n <= |r|
    ensures IsRing(Requeue(h, r[at - 1], At(r, at + n)), Cut(r, at, n))
  {
    var g, q := Requeue(h, r[at - 1], At(r, at + n)), Cut(r, at, n);
    CutNoDup(r, at, n);
    forall i | 0 <= i < |q| ensures LinkedAt(g, q, i) {
      RingCutAt(h, r, at, n, i);
    }
  }

  /** A run of a ring is a chain, and its two ends are linked to its neighbours. */
  lemma RingRun<T>(h: Links<T>, r: seq<T>, at: nat, n: nat)
    requires IsRing(h, r) && 1 <= at && n > 0 && at + n <= |r|
    ensures Chain(h, r[at..at + n])
    ensures h[r[at]].prev == r[at - 1] && h[r[at + n - 1]].next == At(r, at + n)
  {
    var s := r[at..at + n];
    CutNoDup(r, at, n);
    forall i | 0 <= i < |s| ensures ChainedAt(h, s, i) {
      RingAt(h, r, at + i);
    }
    RingAt(h, r, at);
    RingAt(h, r, at + n - 1);
  }

  lemma RingSpliceAt<T>(h: Links<T>, r: seq<T>, at: nat, s: seq<T>, i: nat)
    requires IsRing(h, r) && 1 <= at <= |r| && Chain(h, s) && i < |r| + |s|
    requires forall x :: x in s ==> x !in r
    requires r[at - 1] in h && At(r, at) in h && s[0] in h && s[|s| - 1] in h
    ensures LinkedAt(Requeue(Requeue(h, r[at - 1], s[0]), s[|s| - 1], At(r, at)), Splice(r, at, s), i)
  {
    var q := Splice(r, at, s);
    SpliceIndex(r, at, s, i);
    var e := if at == |r| then 0 else at;
    if i < at || at + |s| <= i {
      var k := if i < at then i else i - |s|;
      RingAt(h, r, k);
      SameIndex(r, k, at - 1);
      SameIndex(r, k, e);
      assert r[k] in r && s[0] in s && s[|s| - 1] in s;
    } else {
      assert r[at - 1] in r && r[e] in r && s[i - at] in s;
      SameIndex(s, i - at, 0);
      SameIndex(s, i - at, |s| - 1);
      ChainAt(h, s, i - at);
    }
  }

  /** Linking a run's ends to two neighbours of a ring puts the run between them. */
  lemma RingSplice<T>(h: Links<T>, r: seq<T>, at: nat, s: seq<T>)
    requires IsRing(h, r) && 1 <= at <= |r| && Chain(h, s)
    requires forall x :: x in s ==> x !in r
    ensures IsRing(Requeue(Requeue(h, r[at - 1], s[0]), s[|s| - 1], At(r, at)), Splice(r, at, s))
  {
    var q := Splice(r, at, s);
    SpliceNoDup(r, at, s);
    CutSplice(r, at, s);
    var g := Requeue(Requeue(h, r[at - 1], s[0]), s[|s| - 1], At(r, at));
    forall i | 0 <= i < |q| ensures LinkedAt(g, q, i) {
      RingSpliceAt(h, r, at, s, i);
    }
  }

  /** Cutting a run s..t out from between p and a, and the two relinks that put it back. */
  ghost function Unlink<T>(h: Links<T>, p: T, a: T): Links<T>
    requires p in h && a in h
  {
    Requeue(h, p, a)
  }

  ghost function Relink<T>(h: Links<T>, p: T, s: T, t: T, a: T): Links<T>
    requires p in h && s in h && t in h && a in h
  {
    Requeue(Requeue(h, p, s), t, a)
  }

  lemma RelinkUnlinked<T>(h: Links<T>, p: T, s: T, t: T, a: T)
    requires p in h && s in h && t in h && a in h
    requires p != s && p != t && a != s && a != t
    requires h[p].next == s && h[s].prev == p && h[t].next == a && h[a].prev == t
    ensures Relink(Unlink(h, p, a), p, s, t, a) == h
  {
  }

  lemma UnlinkRelinked<T>(h: Links<T>, p: T, s: T, t: T, a: T)
    requires p in h && s in h && t in h && a in h
    requires p != s && p != t && a != s && a != t
    requires h[p].next == a && h[a].prev == p && h[s].prev == p && h[t].next == a
    ensures Unlink(Relink(h, p, s, t, a), p, a) == h
  {
  }

  lemma ChainExtends<T>(h: Links<T>, g: Links<T>, s: seq<T>)
    requires Chain(h, s) && Sub(h, g)
    ensures Chain(g, s)
  {
    forall i | 0 <= i < |s| ensures ChainedAt(g, s, i) {
      ChainAt(h, s, i);
    }
  }

  lemma ChainFrame<T>(h: Links<T>, g: Links<T>, s: seq<T>)
    requires Chain(h, s) && forall x :: x in s && x in h ==> x in g && g[x] == h[x]
    ensures Chain(g, s)
  {
    forall i | 0 <= i < |s| ensures s[i] in g && ChainedAt(g, s, i) {
      ChainAt(h, s, i);
      assert i < |s| - 1 ==> s[i + 1] in s;
    }
  }

  lemma CutEnds<T>(r: seq<T>, at: nat, n: nat)
    requires NoDup(r) && 1 <= at && n > 0 && at + n <= |r|
    ensures var q, s, p, a := Cut(r, at, n), r[at..at + n], r[at - 1], At(r, at + n);
      && p == q[at - 1] && a == At(q, at) && p in q && a in q
      && s[0] == r[at] && s[n - 1] == r[at + n - 1] && s[0] in s && s[n - 1] in s
      && (forall x :: x in s ==> x !in q)
  {
    CutNoDup(r, at, n);
    var q := Cut(r, at, n);
    assert q[at - 1] == r[at - 1];
    assert At(q, at) == At(r, at + n) == q[if at == |q| then 0 else at];
  }

  /** The run that was cut out keeps pointing at its old neighbours. */
  lemma CutRun<T>(h: Links<T>, r: seq<T>, at: nat, n: nat)
    requires IsRing(h, r) && 1 <= at && n > 0 && at + n <= |r|
    ensures var s, p, a := r[at..at + n], r[at - 1], At(r, at + n);
      && h[s[0]].prev == p && h[s[n - 1]].next == a
      && (forall x :: x in s ==> x in h && Unlink(h, p, a)[x] == h[x])
      && Chain(Unlink(h, p, a), s)
  {
    var s, p, a := r[at..at + n], r[at - 1], At(r, at + n);
    CutEnds(r, at, n);
    RingRun(h, r, at, n);
    ChainFrame(h, Unlink(h, p, a), s);
  }

  /** Relinking the run gives back the very same links. */
  lemma CutInverse<T>(h: Links<T>, r: seq<T>, at: nat, n: nat)
    requires IsRing(h, r) && 1 <= at && n > 0 && at + n <= |r|
    ensures var p, a := r[at - 1], At(r, at + n);
      Relink(Unlink(h, p, a), p, r[at], r[at + n - 1], a) == h
  {
    CutEnds(r, at, n);
    RingAt(h, r, at - 1);
    RingAt(h, r, at);
    RingAt(h, r, at + n - 1);
    RingAt(h, r, if at + n == |r| then 0 else at + n);
    RelinkUnlinked(h, r[at - 1], r[at], r[at + n - 1], At(r, at + n));
  }

  /** Cutting the run out again gives back the very same links, if the run remembered them. */
  lemma SpliceInverse<T>(h: Links<T>, r: seq<T>, at: nat, s: seq<T>)
    requires IsRing(h, r) && 1 <= at <= |r| && Chain(h, s)
    requires forall x :: x in s ==> x !in r
    requires h[s[0]].prev == r[at - 1] && h[s[|s| - 1]].next == At(r, at)
    ensures r[at - 1] in r && At(r, at) in r && s[0] in s && s[|s| - 1] in s
    ensures var p, a := r[at - 1], At(r, at);
      Unlink(Relink(h, p, s[0], s[|s| - 1], a), p, a) == h
  {
    RingAt(h, r, at - 1);
    RingAt(h, r, if at == |r| then 0 else at);
    assert r[at - 1] in r && At(r, at) in r && s[0] in s && s[|s| - 1] in s;
    UnlinkRelinked(h, r[at - 1], s[0], s[|s| - 1], At(r, at));
  }
}
