/** Sequences of names with values, in increasing order of the names, as finite maps. */
module Tables {
  import opened Names

  ghost predicate InOrder<V>(ps: seq<(Name, V)>, i: nat, j: nat)
    requires i < |ps| && j < |ps|
  {
    Less(ps[i].0, ps[j].0)
  }

  ghost predicate Sorted<V>(ps: seq<(Name, V)>) {
    forall i, j :: 0 <= i < j < |ps| ==> InOrder(ps, i, j)
  }

  ghost predicate Below<V>(ps: seq<(Name, V)>, n: Name) {
    forall i :: 0 <= i < |ps| ==> Less(ps[i].0, n)
  }

  ghost predicate Above<V>(ps: seq<(Name, V)>, n: Name) {
    forall i :: 0 <= i < |ps| ==> Less(n, ps[i].0)
  }

  ghost function AsMap<V>(ps: seq<(Name, V)>): map<Name, V> {
    if ps == [] then map[] else AsMap(ps[..|ps| - 1])[ps[|ps| - 1].0 := ps[|ps| - 1].1]
  }

  lemma {:induction false} AsMapConcat<V>(a: seq<(Name, V)>, b: seq<(Name, V)>)
    ensures AsMap(a + b) == AsMap(a) + AsMap(b)
  {
    if b == [] {
      assert a + b == a;
    } else {
      AsMapConcat(a, b[..|b| - 1]);
      assert (a + b)[..|a + b| - 1] == a + b[..|b| - 1];
    }
  }

  lemma {:induction false} AsMapKeys<V>(ps: seq<(Name, V)>, n: Name)
    requires forall i :: 0 <= i < |ps| ==> ps[i].0 != n
    ensures n !in AsMap(ps)
  {
    if ps != [] {
      AsMapKeys(ps[..|ps| - 1], n);
    }
  }

  lemma OutOfSight<V>(ps: seq<(Name, V)>, n: Name)
    requires Below(ps, n) || Above(ps, n)
    ensures n !in AsMap(ps)
  {
    CompareTotal(n, n);
    AsMapKeys(ps, n);
  }

  /** The map of a name with those below it and those above it. */
  lemma AroundMap<V>(a: seq<(Name, V)>, n: Name, v: V, b: seq<(Name, V)>)
    requires Below(a, n) && Above(b, n)
    ensures n !in AsMap(a + b)
    ensures AsMap(a + [(n, v)] + b) == AsMap(a + b)[n := v]
  {
    OutOfSight(a, n);
    OutOfSight(b, n);
    AsMapConcat(a, b);
    AsMapConcat(a, [(n, v)]);
    AsMapConcat(a + [(n, v)], b);
    assert AsMap([(n, v)]) == map[n := v] by {
      assert [(n, v)][..0] == [];
    }
  }

  /** Taking sorted pairs apart around one of them. */
  lemma SortedAround<V>(a: seq<(Name, V)>, n: Name, v: V, b: seq<(Name, V)>)
    requires Sorted(a + [(n, v)] + b)
    ensures Below(a, n) && Above(b, n)
  {
    var ps := a + [(n, v)] + b;
    forall i | 0 <= i < |a| ensures Less(a[i].0, n) {
      assert InOrder(ps, i, |a|);
    }
    forall i | 0 <= i < |b| ensures Less(n, b[i].0) {
      assert InOrder(ps, |a|, |a| + 1 + i);
    }
  }

  lemma SortedApart<V>(a: seq<(Name, V)>, b: seq<(Name, V)>, c: seq<(Name, V)>)
    requires Sorted(a + b + c)
    ensures Sorted(b) && Sorted(a + c)
  {
    var ps := a + b + c;
    forall i, j | 0 <= i < j < |b| ensures InOrder(b, i, j) {
      assert InOrder(ps, |a| + i, |a| + j);
    }
    var qs := a + c;
    forall i, j | 0 <= i < j < |qs| ensures InOrder(qs, i, j) {
      assert InOrder(ps, if i < |a| then i else i + |b|, if j < |a| then j else j + |b|);
    }
  }

  lemma SortedInsert<V>(a: seq<(Name, V)>, n: Name, v: V, b: seq<(Name, V)>)
    requires Sorted(a + b) && Below(a, n) && Above(b, n)
    ensures Sorted(a + [(n, v)] + b)
  {
    var ps, qs := a + b, a + [(n, v)] + b;
    forall i, j | 0 <= i < j < |qs| ensures InOrder(qs, i, j) {
      if i != |a| && j != |a| {
        assert InOrder(ps, if i < |a| then i else i - 1, if j < |a| then j else j - 1);
      }
    }
  }

  lemma BelowConcat<V>(a: seq<(Name, V)>, b: seq<(Name, V)>, n: Name)
    requires Below(a, n) && Below(b, n)
    ensures Below(a + b, n)
  {
  }

  lemma AboveConcat<V>(a: seq<(Name, V)>, b: seq<(Name, V)>, n: Name)
    requires Above(a, n) && Above(b, n)
    ensures Above(a + b, n)
  {
  }

  lemma BelowLess<V>(a: seq<(Name, V)>, m: Name, n: Name)
    requires Below(a, m) && Less(m, n)
    ensures Below(a, n)
  {
    forall i | 0 <= i < |a| ensures Less(a[i].0, n) {
      LessTransitive(a[i].0, m, n);
    }
  }

  lemma AboveLess<V>(a: seq<(Name, V)>, m: Name, n: Name)
    requires Above(a, m) && Less(n, m)
    ensures Above(a, n)
  {
    forall i | 0 <= i < |a| ensures Less(n, a[i].0) {
      LessTransitive(n, m, a[i].0);
    }
  }

  /** The pairs whose names are not among those taken out. */
  ghost function Without<V>(ps: seq<(Name, V)>, out: Name -> bool): seq<(Name, V)> {
    if ps == [] then []
    else
      var p := ps[|ps| - 1];
      Without(ps[..|ps| - 1], out) + (if out(p.0) then [] else [p])
  }

  lemma {:induction false} WithoutConcat<V>(a: seq<(Name, V)>, b: seq<(Name, V)>, out: Name -> bool)
    ensures Without(a + b, out) == Without(a, out) + Without(b, out)
  {
    if b == [] {
      assert a + b == a;
    } else {
      WithoutConcat(a, b[..|b| - 1], out);
      assert (a + b)[..|a + b| - 1] == a + b[..|b| - 1];
    }
  }

  lemma {:induction false} WithoutNone<V>(ps: seq<(Name, V)>, out: Name -> bool)
    requires forall i :: 0 <= i < |ps| ==> !out(ps[i].0)
    ensures Without(ps, out) == ps
  {
    if ps != [] {
      WithoutNone(ps[..|ps| - 1], out);
      assert ps == ps[..|ps| - 1] + [ps[|ps| - 1]];
    }
  }

  /** Taking out one pair that is to go leaves the same others. */
  lemma WithoutOne<V>(a: seq<(Name, V)>, p: (Name, V), b: seq<(Name, V)>, out: Name -> bool)
    requires out(p.0)
    ensures Without(a + [p] + b, out) == Without(a + b, out)
  {
    WithoutConcat(a + [p], b, out);
    WithoutConcat(a, [p], out);
    WithoutConcat(a, b, out);
    assert [p][..0] == [];
    assert Without([p], out) == [];
  }

  ghost predicate NoneMatch<V>(out: Name -> bool, ps: seq<(Name, V)>) {
    forall i :: 0 <= i < |ps| ==> !out(ps[i].0)
  }

  lemma NoneOfNone<V>(out: Name -> bool)
    ensures NoneMatch<V>(out, [])
  {
  }
  /** What is left after the names of each pattern in turn. */
  ghost function WithoutAll<V>(ps: seq<(Name, V)>, outs: seq<Name -> bool>): seq<(Name, V)> {
    if outs == [] then ps else Without(WithoutAll(ps, outs[..|outs| - 1]), outs[|outs| - 1])
  }

  predicate Matched(outs: seq<Name -> bool>, n: Name) {
    exists i :: 0 <= i < |outs| && outs[i](n)
  }

  lemma {:induction false} WithoutAsMap<V>(ps: seq<(Name, V)>, out: Name -> bool)
    ensures AsMap(Without(ps, out)) == map n | n in AsMap(ps) && !out(n) :: AsMap(ps)[n]
  {
    if ps != [] {
      var p, before := ps[|ps| - 1], ps[..|ps| - 1];
      WithoutAsMap(before, out);
      AsMapConcat(Without(before, out), if out(p.0) then [] else [p]);
      assert AsMap([p]) == map[p.0 := p.1] by { assert [p][..0] == []; }
    }
  }

  /** As a map, what is left after all the patterns is what none of them matches. */
  lemma {:induction false} WithoutAllAsMap<V>(ps: seq<(Name, V)>, outs: seq<Name -> bool>)
    ensures AsMap(WithoutAll(ps, outs)) == map n | n in AsMap(ps) && !Matched(outs, n) :: AsMap(ps)[n]
  {
    if outs != [] {
      var k := |outs| - 1;
      WithoutAllAsMap(ps, outs[..k]);
      WithoutAsMap(WithoutAll(ps, outs[..k]), outs[k]);
      forall n ensures Matched(outs, n) <==> Matched(outs[..k], n) || outs[k](n) {
        if Matched(outs, n) {
          var i :| 0 <= i < |outs| && outs[i](n);
          assert i < k ==> outs[..k][i](n);
        }
        if Matched(outs[..k], n) {
          var i :| 0 <= i < k && outs[..k][i](n);
          assert outs[i](n);
        }
      }
    }
  }
}
