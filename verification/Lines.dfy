/** Line nodes, and what the editor relies on about their links, their text, the undo stack and
    the marks, stated about values: the buffer's methods change the heap, the lemmas here say
    what the change keeps. */
module Lines {
  import opened Rings
  import opened UndoLog

  const LINECHARS: nat := 0x7fff_ffff
  const MAXMARK: nat := 26

  class Line {
    var next: Line
    var prev: Line
    const seek: nat
    const len: nat
    var active: bool   // the high bit of the stored length

    constructor (seek: nat, len: nat)
      ensures this.seek == seek && this.len == len && !active && next == this && prev == this
    {
      this.seek, this.len := seek, len;
      next, prev, active := this, this, false;
    }
  }

  /** The line before and after number l, counting from line 0 and around. */
  function NextLn(l: nat, k: nat): nat {
    if l + 1 > k then 0 else l + 1
  }

  function PrevLn(l: nat, k: nat): nat {
    if l == 0 then k else l - 1
  }

  ghost function LoneLink(l: Line): Links<Line>
    reads l
  {
    map n: Line | n in {l} :: Link(n.next, n.prev)
  }

  lemma LoneRing(h: Links<Line>, root: Line)
    requires h.Keys == {root} && h[root] == Link(root, root)
    ensures Shape(h, [root], root, 0, 0, 0, root)
    ensures LoggedIn(h, [root], [], [root], [], -1, -1)
  {
    assert LinkedAt(h, [root], 0);
  }

  /** The number of marks in use. */
  ghost function Count(mark: seq<Line?>): nat {
    if mark == [] then 0 else Count(mark[..|mark| - 1]) + (if mark[|mark| - 1] == null then 0 else 1)
  }

  lemma CountNone(mark: seq<Line?>)
    requires forall i :: 0 <= i < |mark| ==> mark[i] == null
    ensures Count(mark) == 0
  {
  }

  /** A run of lines being added one at a time: the links h0, ring r0 and log log0 before the
      first of them, the position, and the lines so far. */
  datatype Run = Run(h0: Links<Line>, r0: seq<Line>, log0: seq<Change<Line>>, at: nat, seg: seq<Line>)

  ghost function RunLog(run: Run): seq<Change<Line>> {
    if run.seg == [] then run.log0 else run.log0 + [Added(run.at, run.seg)]
  }

  /** The text of a line, in a scratch file. */
  function LineText(data: string, l: Line): string {
    if l.seek + l.len <= |data| then data[l.seek..l.seek + l.len] else ""
  }

  ghost function Texts(data: string, ls: seq<Line>): (ts: seq<string>)
    ensures |ts| == |ls|
  {
    seq(|ls|, i requires 0 <= i < |ls| => LineText(data, ls[i]))
  }

  ghost predicate Held(data: string, ls: seq<Line>) {
    forall i :: 0 <= i < |ls| ==> ls[i].seek + ls[i].len <= |data|
  }

  lemma TextsKept(data: string, more: string, ls: seq<Line>)
    requires Held(data, ls)
    ensures Texts(data + more, ls) == Texts(data, ls)
  {
    forall i | 0 <= i < |ls| ensures LineText(data + more, ls[i]) == LineText(data, ls[i]) {
    }
  }

  lemma TextsSplice(data: string, r: seq<Line>, at: nat, s: seq<Line>)
    requires 1 <= at <= |r|
    ensures Texts(data, Splice(r, at, s)[1..])
      == Texts(data, r[1..])[..at - 1] + Texts(data, s) + Texts(data, r[1..])[at - 1..]
  {
    assert Splice(r, at, s)[1..] == r[1..][..at - 1] + s + r[1..][at - 1..];
  }

  lemma TextsCut(data: string, r: seq<Line>, at: nat, n: nat)
    requires 1 <= at && at + n <= |r|
    ensures Texts(data, Cut(r, at, n)[1..]) == Texts(data, r[1..])[..at - 1] + Texts(data, r[1..])[at - 1 + n..]
  {
    assert Cut(r, at, n)[1..] == r[1..][..at - 1] + r[1..][at - 1 + n..];
  }

  /** The lines of ts before the first that is too long to store. */
  function Fitting(ts: seq<string>): (f: seq<string>) {
    if ts == [] || |ts[0]| >= LINECHARS then [] else [ts[0]] + Fitting(ts[1..])
  }

  lemma {:induction false} FittingPrefix(ts: seq<string>, k: nat)
    requires k <= |ts| && forall i :: 0 <= i < k ==> |ts[i]| < LINECHARS
    requires k == |ts| || |ts[k]| >= LINECHARS
    ensures Fitting(ts) == ts[..k]
  {
    if k > 0 {
      FittingPrefix(ts[1..], k - 1);
      assert ts[..k] == [ts[0]] + ts[1..][..k - 1];
    }
  }

  /** The lines of the run, and no others, have been linked in since it was started; the last of
      them is line cur. */
  ghost predicate Continues(run: Run, h: Links<Line>, r: seq<Line>, cur: nat, base: seq<Line>) {
    && Undoable(run.h0, run.r0, run.log0, base) && Settled(run.log0)
    && Grown(run.h0, run.r0, h, run.at, run.seg)
    && r == Splice(run.r0, run.at, run.seg)
    && cur == run.at - 1 + |run.seg|
    && run.h0.Keys <= h.Keys
  }

  /** A line linked in at the end of a run continues it. */
  lemma QueuedRun(run: Run, h: Links<Line>, r: seq<Line>, cur: nat, base: seq<Line>, lp: Line)
    requires Continues(run, h, r, cur, base) && lp !in h
    requires cur < |r| && r[cur] in h && At(r, cur + 1) in h
    ensures Continues(run.(seg := run.seg + [lp]), Insert(h, lp, r[cur], At(r, cur + 1)),
                      Splice(r, cur + 1, [lp]), cur + 1, base)
    ensures Elems(Splice(r, cur + 1, [lp])) == Elems(r) + {lp}
  {
    var n := cur + 1;
    GrownMore(run.h0, run.r0, h, run.at, run.seg, lp);
    assert Splice(r, n, [lp]) == Splice(run.r0, run.at, run.seg + [lp]);
    InsertAny(h, lp, Link(r[cur], r[cur]), r[cur], At(r, n));
    assert lp !in r;
    SpliceNoDup(r, n, [lp]);
  }

  /** The texts of a run, all of it stored, none of it active. */
  ghost predicate Reads(data: string, ls: seq<Line>, ts: seq<string>)
    reads ls`active
  {
    Held(data, ls) && Texts(data, ls) == ts && forall i :: 0 <= i < |ls| ==> !ls[i].active
  }

  lemma ReadsMore(d0: string, d1: string, ls: seq<Line>, l: Line, ts: seq<string>, t: string)
    requires Reads(d0, ls, ts) && d0 <= d1
    requires l.seek + l.len <= |d1| && LineText(d1, l) == t && !l.active
    ensures Reads(d1, ls + [l], ts + [t])
  {
    TextsKept(d0, d1[|d0|..], ls);
    assert d1 == d0 + d1[|d0|..];
  }

  /** What adding a run does to the text of the buffer. */
  lemma TextsInserted(d0: string, d1: string, r0: seq<Line>, at: nat, seg: seq<Line>)
    requires d0 <= d1 && Held(d0, r0) && 1 <= at <= |r0|
    ensures Texts(d1, Splice(r0, at, seg)[1..])
      == Texts(d0, r0[1..])[..at - 1] + Texts(d1, seg) + Texts(d0, r0[1..])[at - 1..]
  {
    TextsSplice(d1, r0, at, seg);
    assert Held(d0, r0[1..]);
    TextsKept(d0, d1[|d0|..], r0[1..]);
    assert d1 == d0 + d1[|d0|..];
  }

  lemma SpliceMembers(r: seq<Line>, at: nat, s: seq<Line>, i: nat)
    requires at <= |r| && i < |r| + |s|
    ensures Splice(r, at, s)[i] in r || Splice(r, at, s)[i] in s
  {
    SpliceIndex(r, at, s, i);
  }

  lemma SpliceNone(r: seq<Line>, at: nat)
    requires at <= |r|
    ensures Splice(r, at, []) == r
  {
  }
  lemma CutShape(r: seq<Line>, at: nat, n: nat)
    requires 1 <= at && at + n <= |r|
    ensures var q := Cut(r, at, n);
      && |q| == |r| - n && q[0] == r[0] && q[at - 1] == r[at - 1]
      && forall i :: 0 <= i < |q| ==> q[i] in r
  {
    var q := Cut(r, at, n);
    forall i | 0 <= i < |q| ensures q[i] in r {
      assert q[i] == r[if i < at then i else i + n];
    }
  }

  /** The text of several lines run together. */
  function Joined(ts: seq<string>): string {
    if ts == [] then "" else Joined(ts[..|ts| - 1]) + ts[|ts| - 1]
  }

  lemma JoinedNone(ts: seq<string>, i: nat)
    requires i <= |ts|
    ensures Joined(ts[i..i]) == ""
  {
  }

  lemma JoinedMore(ts: seq<string>, i: nat, j: nat)
    requires i <= j < |ts|
    ensures Joined(ts[i..j + 1]) == Joined(ts[i..j]) + ts[j]
  {
    assert ts[i..j + 1][..j - i] == ts[i..j];
  }

  lemma TextsAt(data: string, r: seq<Line>, k: nat)
    requires 1 <= k < |r|
    ensures Texts(data, r[1..])[k - 1] == LineText(data, r[k])
  {
  }

  /** What a substitution makes of one line: nothing (no match), or one or more lines. */
  datatype Repl = Same | Lines(first: string, rest: seq<string>)

  /** The outcome of substituting in some lines: the text in their place, how many of those lines
      have been gone through, how many substitutions were made, and whether all could be stored.
      After a line that cannot be stored, the line it came from is lost and the others stay. */
  datatype Substituted = Substituted(lines: seq<string>, cur: nat, nsubs: nat, ok: bool)

  function SubstLines(ts: seq<string>, sub: string -> Repl): (out: Substituted)
    ensures out.cur <= |out.lines|
  {
    if ts == [] then Substituted([], 0, 0, true)
    else match sub(ts[0])
      case Same => Ahead([ts[0]], 0, SubstLines(ts[1..], sub))
      case Lines(first, rest) =>
        var ps := [first] + rest;
        if Fitting(ps) == ps then Ahead(ps, 1, SubstLines(ts[1..], sub))
        else Substituted(Fitting(ps) + ts[1..], |Fitting(ps)|, 0, false)
  }

  function Ahead(done: seq<string>, nsubs: nat, out: Substituted): Substituted {
    Substituted(done + out.lines, |done| + out.cur, nsubs + out.nsubs, out.ok)
  }

  lemma AheadTwice(a: seq<string>, m: nat, b: seq<string>, n: nat, out: Substituted)
    ensures Ahead(a, m, Ahead(b, n, out)) == Ahead(a + b, m + n, out)
  {
    assert a + (b + out.lines) == a + b + out.lines;
  }

  lemma AheadNone(out: Substituted)
    ensures Ahead([], 0, out) == out
  {
    assert [] + out.lines == out.lines;
  }

  lemma SubstOne(t: string, sub: string -> Repl)
    ensures sub(t).Same? ==> SubstLines([t], sub) == Substituted([t], 1, 0, true)
    ensures sub(t).Lines? ==>
      var ps := [sub(t).first] + sub(t).rest;
      var ok := Fitting(ps) == ps;
      SubstLines([t], sub) == Substituted(Fitting(ps), |Fitting(ps)|, if ok then 1 else 0, ok)
  {
    hide Fitting;
    assert [t][1..] == [];
    assert [t] + SubstLines([], sub).lines == [t];
    if sub(t).Lines? {
      var ps := [sub(t).first] + sub(t).rest;
      assert ps + [] == ps && Fitting(ps) + [] == Fitting(ps);
    }
  }

  /** Substituting in the first line, then in the others. */
  lemma SubstFirst(ts: seq<string>, sub: string -> Repl)
    requires ts != []
    ensures var one := SubstLines(ts[..1], sub);
      SubstLines(ts, sub) ==
        if one.ok then Ahead(one.lines, one.nsubs, SubstLines(ts[1..], sub))
        else Substituted(one.lines + ts[1..], one.cur, 0, false)
    ensures SubstLines(ts[..1], sub).ok ==> SubstLines(ts[..1], sub).cur == |SubstLines(ts[..1], sub).lines|
  {
    hide Fitting;
    assert ts[..1] == [ts[0]];
    SubstOne(ts[0], sub);
  }

  /** One round of subst on lines ts[from..to], lc of them done: the outcome for all of them is
      kept as what is done ahead of the outcome for the rest. */
  lemma SubstStep(ts: seq<string>, from: nat, to: nat, sub: string -> Repl, lc: nat, done: seq<string>, nsubs: nat,
                  put: seq<string>, hit: bool, stored: bool, was: seq<string>, now: seq<string>)
    requires from + lc < to <= |ts|
    requires was == ts[..from] + done + ts[from + lc..]
    requires SubstLines(ts[from..to], sub) == Ahead(done, nsubs, SubstLines(ts[from + lc..to], sub))
    requires SubstLines(was[from + |done|..from + |done| + 1], sub)
          == Substituted(put, |put|, if hit && stored then 1 else 0, stored)
    requires !hit ==> stored
    requires now == was[..from + |done|] + put + was[from + |done| + 1..]
    ensures stored ==> now == ts[..from] + (done + put) + ts[from + lc + 1..]
    ensures stored ==>
      SubstLines(ts[from..to], sub)
        == Ahead(done + put, nsubs + (if hit then 1 else 0), SubstLines(ts[from + lc + 1..to], sub))
    ensures !stored ==> now == ts[..from] + SubstLines(ts[from..to], sub).lines + ts[to..]
    ensures !stored ==> SubstLines(ts[from..to], sub).cur == |done| + |put| && !SubstLines(ts[from..to], sub).ok
  {
    hide SubstLines;
    var rest := ts[from + lc..to];
    assert was[from + |done|] == ts[from + lc] == rest[0];
    assert rest[..1] == was[from + |done|..from + |done| + 1];
    assert rest[1..] == ts[from + lc + 1..to];
    SubstFirst(rest, sub);
    AheadTwice(done, nsubs, put, if hit then 1 else 0, SubstLines(rest[1..], sub));
    assert was[..from + |done|] == ts[..from] + done;
    assert was[from + |done| + 1..] == ts[from + lc + 1..];
    assert ts[from + lc + 1..] == rest[1..] + ts[to..];
  }

  lemma SubstEnd(ts: seq<string>, from: nat, to: nat, sub: string -> Repl, done: seq<string>, nsubs: nat)
    requires from <= to <= |ts|
    requires SubstLines(ts[from..to], sub) == Ahead(done, nsubs, SubstLines(ts[to..to], sub))
    ensures SubstLines(ts[from..to], sub) == Substituted(done, |done|, nsubs, true)
  {
    assert done + [] == done;
  }

  // ---- The four parts of the buffer's invariant ----

  /** The list, and the cached position in it. */
  ghost predicate Shape(h: Links<Line>, r: seq<Line>, root: Line, cur: nat, last: nat, on: nat, lp: Line) {
    && IsRing(h, r) && r[0] == root
    && |r| == last + 1 && cur <= last && on <= last && r[on] == lp
  }

  /** All lines have their text in the scratch file. */
  ghost predicate StoredIn(data: string, nodes: set<Line>) {
    forall n :: n in nodes ==> n.seek + n.len <= |data|
  }

  /** The undo stack leads from ring r back to base, whose line numbers undo would restore (or
      undo is off, -1); and the nodes allocated are those of the ring and of deleted runs. */
  ghost predicate LoggedIn(h: Links<Line>, r: seq<Line>, log: seq<Change<Line>>, base: seq<Line>,
                           stack: seq<Entry<Line>>, uc: int, ul: int)
  {
    && Undoable(h, r, log, base) && Encodes(stack, log) && Settled(log)
    && h.Keys == Elems(r) + Dead(log)
    && Target(uc, ul, base)
  }

  ghost predicate Target(uc: int, ul: int, base: seq<Line>) {
    && (uc == -1 <==> ul == -1)
    && (uc != -1 ==> 0 <= uc <= ul == |base| - 1)
  }

  /** The marks in use are counted, and are on allocated nodes. */
  ghost predicate MarkedIn(mark: seq<Line?>, markno: nat, nodes: set<Line>) {
    && |mark| == MAXMARK && markno == Count(mark)
    && forall i :: 0 <= i < MAXMARK && mark[i] != null ==> mark[i] in nodes
  }

  lemma HeldRing(data: string, nodes: set<Line>, r: seq<Line>)
    requires StoredIn(data, nodes) && forall l :: l in r ==> l in nodes
    ensures Held(data, r)
  {
    forall i | 0 <= i < |r| ensures r[i].seek + r[i].len <= |data| {
      assert r[i] in r;
    }
  }

  /** h holds what the nodes hold. */
  ghost predicate Holds(h: Links<Line>)
    reads h.Keys`next, h.Keys`prev
  {
    forall n :: n in h ==> h[n] == Link(n.next, n.prev)
  }

  lemma HeldAt(h: Links<Line>, s: seq<Line>, j: nat)
    requires Holds(h) && Chain(h, s) && j < |s|
    ensures s[j] in h && s[j].next == h[s[j]].next && s[j] in s && (j < |s| - 1 ==> s[j].next == s[j + 1]) && NoDup(s)
  {
    ChainAt(h, s, j);
  }

  /** One more line: where it goes, and that all is stored and marked as before. */
  lemma QueuedParts(h: Links<Line>, r: seq<Line>, root: Line, cur: nat, last: nat, on: nat, lp: Line, x: Line)
    requires Shape(h, r, root, cur, last, on, lp) && on == cur && x !in h
    ensures cur < |r| && r[cur] in h && At(r, cur + 1) in h
    ensures h[r[cur]].next == At(r, cur + 1)
    ensures var g, q := Insert(h, x, r[cur], At(r, cur + 1)), Splice(r, cur + 1, [x]);
      && Shape(g, q, root, cur + 1, last + 1, on, lp) && q[cur + 1] == x && g.Keys == h.Keys + {x}
  {
    RingAt(h, r, cur);
    RingAt(h, r, if cur == last then 0 else cur + 1);
    InsertRing(h, r, cur + 1, x);
    InsertAny(h, x, Link(x, x), r[cur], At(r, cur + 1));
  }

  lemma CutParts(h: Links<Line>, r: seq<Line>, root: Line, cur: nat, last: nat, on: nat, lp: Line, at: nat, n: nat)
    requires Shape(h, r, root, cur, last, on, lp) && 1 <= at && n > 0 && at + n <= |r|
    ensures r[at - 1] in h && At(r, at + n) in h
    ensures Shape(Requeue(h, r[at - 1], At(r, at + n)), Cut(r, at, n), root, at - 1, last - n, at - 1, r[at - 1])
  {
    RingAt(h, r, at - 1);
    RingAt(h, r, if at + n == |r| then 0 else at + n);
    RingCut(h, r, at, n);
    CutShape(r, at, n);
  }

  lemma StoredAt(data: string, nodes: set<Line>, l: Line)
    requires StoredIn(data, nodes) && l in nodes
    ensures l.seek + l.len <= |data|
  {
  }

  lemma StoredMore(d0: string, d1: string, nodes: set<Line>, x: Line)
    requires StoredIn(d0, nodes) && d0 <= d1 && x.seek + x.len <= |d1|
    ensures StoredIn(d1, nodes + {x})
  {
  }

  lemma MarkedMore(mark: seq<Line?>, markno: nat, nodes: set<Line>, x: Line)
    requires MarkedIn(mark, markno, nodes)
    ensures MarkedIn(mark, markno, nodes + {x})
  {
    hide Count;
  }

  lemma LogEncoded(log: seq<Change<Line>>, c: Change<Line>, stack: seq<Entry<Line>>)
    requires Encodes(stack, log + [c])
    ensures |stack| > 0
  {
  }

  /** Extending the top entry of the stack, or pushing a first one, stores the longer run. */
  lemma RunEncoded(stack: seq<Entry<Line>>, was: seq<Entry<Line>>, run: Run, lp: Line)
    requires Encodes(was, RunLog(run))
    requires run.seg == [] ==> stack == was + [Entry(UADD, lp, lp)]
    requires run.seg != [] ==> |was| > 0 && stack == was[|was| - 1 := was[|was| - 1].(t := lp)]
    ensures Encodes(stack, RunLog(run.(seg := run.seg + [lp])))
  {
    var c := Added(run.at, run.seg + [lp]);
    var top := stack[|stack| - 1];
    if run.seg == [] {
      EncodesPush(was, run.log0, [top], c);
    } else {
      assert RunLog(run)[..|run.log0|] == run.log0;
      assert Encodes(was[..|was| - 1], run.log0);
      EncodesPush(was[..|was| - 1], run.log0, [top], c);
      assert stack == was[..|was| - 1] + [top];
    }
  }

  /** Logging one more line of a run keeps all that undo and ureset rely on. */
  lemma RunLogged(h: Links<Line>, base: seq<Line>, run: Run, lp: Line, was: seq<Entry<Line>>, stack: seq<Entry<Line>>)
    requires Undoable(run.h0, run.r0, run.log0, base) && Settled(run.log0)
    requires Grown(run.h0, run.r0, h, run.at, run.seg + [lp])
    requires Encodes(was, RunLog(run))
    requires run.seg == [] ==> stack == was + [Entry(UADD, lp, lp)]
    requires run.seg != [] ==> |was| > 0 && stack == was[|was| - 1 := was[|was| - 1].(t := lp)]
    ensures var log := RunLog(run.(seg := run.seg + [lp]));
      Encodes(stack, log) && Settled(log) && Dead(log) == Dead(RunLog(run))
  {
    hide Undoable, Encodes, Settled, Dead;
    var seg := run.seg + [lp];
    RunEncoded(stack, was, run, lp);
    FreshRunApart(run.h0, run.r0, run.log0, base, seg);
    PushSettled(run.log0, Added(run.at, seg));
    PushElems(run.log0, Added(run.at, seg));
    PushElems(run.log0, Added(run.at, run.seg));
  }

  /** The state just after a line of a run was linked in, before its undo entry is. */
  ghost predicate Pending(run: Run, lp: Line, h: Links<Line>, r: seq<Line>, cur: nat, base: seq<Line>,
                          log: seq<Change<Line>>, stack: seq<Entry<Line>>)
  {
    && Continues(run.(seg := run.seg + [lp]), h, r, cur, base)
    && log == RunLog(run) && Encodes(stack, log)
    && h.Keys == Elems(r) + Dead(log)
  }

  lemma QueuedPending(run: Run, h: Links<Line>, r: seq<Line>, cur: nat, base: seq<Line>, lp: Line,
                      log: seq<Change<Line>>, stack: seq<Entry<Line>>, uc: int, ul: int)
    requires Continues(run, h, r, cur, base) && log == RunLog(run) && lp !in h
    requires cur < |r| && r[cur] in h && At(r, cur + 1) in h
    requires LoggedIn(h, r, log, base, stack, uc, ul)
    ensures Pending(run, lp, Insert(h, lp, r[cur], At(r, cur + 1)), Splice(r, cur + 1, [lp]), cur + 1, base, log, stack)
    ensures Target(uc, ul, base)
  {
    hide Continues, Encodes, Undoable, Settled, Target;
    QueuedRun(run, h, r, cur, base, lp);
    InsertAny(h, lp, Link(r[cur], r[cur]), r[cur], At(r, cur + 1));
  }

  lemma PendingContinues(run: Run, lp: Line, h: Links<Line>, r: seq<Line>, cur: nat, base: seq<Line>,
                         log: seq<Change<Line>>, stack: seq<Entry<Line>>)
    requires Pending(run, lp, h, r, cur, base, log, stack)
    ensures Continues(run.(seg := run.seg + [lp]), h, r, cur, base)
  {
  }

  /** The entry for a run, extended to the line just linked in, or pushed for it. */
  ghost function Extended(stack: seq<Entry<Line>>, run: Run, lp: Line): seq<Entry<Line>>
    requires run.seg != [] ==> |stack| > 0
  {
    if run.seg == [] then stack + [Entry(UADD, lp, lp)]
    else stack[|stack| - 1 := stack[|stack| - 1].(t := lp)]
  }

  lemma PendingLogged(run: Run, lp: Line, h: Links<Line>, r: seq<Line>, cur: nat, base: seq<Line>,
                      log: seq<Change<Line>>, stack: seq<Entry<Line>>, uc: int, ul: int)
    requires Pending(run, lp, h, r, cur, base, log, stack) && Target(uc, ul, base)
    ensures run.seg != [] ==> |stack| > 0
    ensures var more := run.(seg := run.seg + [lp]);
      LoggedIn(h, r, RunLog(more), base, Extended(stack, run, lp), uc, ul)
  {
    hide Encodes, Settled, Undoable, Dead, Grown, Target;
    var more := run.(seg := run.seg + [lp]);
    if run.seg != [] { LogEncoded(run.log0, Added(run.at, run.seg), stack); }
    GrownUndoable(more.h0, more.r0, more.log0, base, h, more.at, more.seg);
    RunLogged(h, base, run, lp, stack, Extended(stack, run, lp));
  }

  /** A run about to be started after line cur. */
  lemma StartRun(h: Links<Line>, r: seq<Line>, cur: nat, log: seq<Change<Line>>, base: seq<Line>,
                 stack: seq<Entry<Line>>, uc: int, ul: int, data: string) returns (run: Run)
    requires LoggedIn(h, r, log, base, stack, uc, ul) && cur < |r|
    ensures run == Run(h, r, log, cur + 1, [])
    ensures Continues(run, h, r, cur, base) && log == RunLog(run) && Reads(data, run.seg, [])
  {
    run := Run(h, r, log, cur + 1, []);
    UndoableIsRing(h, r, log, base);
    GrownStart(h, r, cur + 1);
    SpliceNone(r, cur + 1);
  }

  /** What a run added to a buffer with text in scratch file d0 has done to it. */
  lemma FinishRun(run: Run, h: Links<Line>, r: seq<Line>, cur: nat, base: seq<Line>, d0: string, d1: string, ts: seq<string>)
    requires Continues(run, h, r, cur, base) && Reads(d1, run.seg, ts)
    requires d0 <= d1 && Held(d0, run.r0)
    ensures |r| == |run.r0| + |ts| && cur == run.at - 1 + |ts| && 1 <= run.at <= |run.r0|
    ensures Texts(d1, r[1..]) == Texts(d0, run.r0[1..])[..run.at - 1] + ts + Texts(d0, run.r0[1..])[run.at - 1..]
    ensures forall i :: 0 <= i < |r| && r[i].active ==> r[i] in run.r0
  {
    TextsInserted(d0, d1, run.r0, run.at, run.seg);
    forall k | 0 <= k < |r| && r[k].active ensures r[k] in run.r0 {
      SpliceMembers(run.r0, run.at, run.seg, k);
    }
  }

  lemma LoggedRing(h: Links<Line>, r: seq<Line>, log: seq<Change<Line>>, base: seq<Line>,
                   stack: seq<Entry<Line>>, uc: int, ul: int)
    requires LoggedIn(h, r, log, base, stack, uc, ul)
    ensures IsRing(h, r) && (forall l :: l in r ==> l in h)
  {
    UndoableIsRing(h, r, log, base);
  }

  /** Deleting lines and pushing the entry for it keeps all that undo and ureset rely on. */
  lemma DeleteLogged(h: Links<Line>, r: seq<Line>, log: seq<Change<Line>>, base: seq<Line>, stack: seq<Entry<Line>>,
                     uc: int, ul: int, at: nat, n: nat)
    requires LoggedIn(h, r, log, base, stack, uc, ul)
    requires 1 <= at && n > 0 && at + n <= |r|
    ensures r[at - 1] in h && At(r, at + n) in h
    ensures var c, g, q := Deleted(at, r[at..at + n]), Requeue(h, r[at - 1], At(r, at + n)), Cut(r, at, n);
      && LoggedIn(g, q, log + [c], base, stack + [Entry(UDEL, r[at], r[at + n - 1])], uc, ul)
      && g.Keys == h.Keys
  {
    hide Settled, Encodes, Dead, Undoable, Target, CanUndo, IsRing, NoDup;
    var seg := r[at..at + n];
    var c, d := Deleted(at, seg), Added(at, seg);
    UndoableIsRing(h, r, log, base);
    AddedLinks(h, r, at, seg);
    AddedCanUndo(h, r, at, n);
    Push(h, r, log, base, d);
    PushSettled(log, c);
    PushElems(log, c);
    CutNoDup(r, at, n);
    EncodesPush(stack, log, [Entry(UDEL, r[at], r[at + n - 1])], c);
  }

  lemma AddedCanUndo(h: Links<Line>, r: seq<Line>, at: nat, n: nat)
    requires IsRing(h, r) && 1 <= at && n > 0 && at + n <= |r|
    ensures CanUndo(h, r, Added(at, r[at..at + n]))
  {
  }

  // ---- Moving lines ----

  /** Where lines line1.. (n of them) go when moved to after line num: their position in the
      ring without them. */
  function MoveTo(line1: nat, n: nat, num: nat): nat
    requires num < line1 || n <= num + 1
  {
    if num < line1 then num + 1 else num + 1 - n
  }

  ghost function MovedRingOf(r: seq<Line>, line1: nat, n: nat, num: nat): seq<Line>
    requires 1 <= line1 && line1 + n <= |r| && num < |r| && (num < line1 || line1 + n <= num + 1)
  {
    Splice(Cut(r, line1, n), MoveTo(line1, n, num), r[line1..line1 + n])
  }

  /** The change whose undo moves the lines, as found in ring r. */
  ghost function MoveChange(r: seq<Line>, line1: nat, n: nat, num: nat): Change<Line>
    requires 1 <= line1 && n > 0 && line1 + n <= |r| && num < |r|
    requires num + 1 < line1 || line1 + n <= num
  {
    Moved(MoveTo(line1, n, num), line1, r[line1..line1 + n], r[num], At(r, num + 1), r[line1 - 1], At(r, line1 + n))
  }

  lemma MoveFits(h: Links<Line>, r: seq<Line>, line1: nat, n: nat, num: nat)
    requires IsRing(h, r) && 1 <= line1 && n > 0 && line1 + n <= |r| && num < |r|
    requires num + 1 < line1 || line1 + n <= num
    ensures var d := MoveChange(r, line1, n, num);
      CanUndo(h, r, d) && UndoRing(r, d) == MovedRingOf(r, line1, n, num)
  {
    var q, k := Cut(r, line1, n), MoveTo(line1, n, num);
    assert q[k - 1] == r[num];
    assert At(q, k) == At(r, num + 1);
    assert q[line1 - 1] == r[line1 - 1] && At(q, line1) == At(r, line1 + n);
  }

  /** Moving lines and pushing the two entries for it keeps all that undo and ureset rely on. */
  lemma MoveLogged(h: Links<Line>, r: seq<Line>, log: seq<Change<Line>>, base: seq<Line>, stack: seq<Entry<Line>>,
                   uc: int, ul: int, line1: nat, n: nat, num: nat)
    requires LoggedIn(h, r, log, base, stack, uc, ul)
    requires 1 <= line1 && n > 0 && line1 + n <= |r| && num < |r|
    requires num + 1 < line1 || line1 + n <= num
    ensures var d := MoveChange(r, line1, n, num);
      && Ends(h, d) && h[d.b1].next == d.a1
      && LoggedIn(UndoLinks(h, d), MovedRingOf(r, line1, n, num), log + [Inverse(d)], base,
                  stack + [Entry(UMOV, d.b2, d.a2), Entry(UMOV, d.b1, d.a1)], uc, ul)
      && UndoLinks(h, d).Keys == h.Keys
  {
    hide Settled, Encodes, Dead, Undoable, Target, CanUndo, MovedRingOf;
    var d := MoveChange(r, line1, n, num);
    UndoableIsRing(h, r, log, base);
    MoveFits(h, r, line1, n, num);
    Push(h, r, log, base, d);
    PushSettled(log, Inverse(d));
    PushElems(log, Inverse(d));
    EncodesPush(stack, log, [Entry(UMOV, d.b2, d.a2), Entry(UMOV, d.b1, d.a1)], Inverse(d));
    MoveKeeps(h, r, d);
  }

  lemma MoveKeeps(h: Links<Line>, r: seq<Line>, d: Change<Line>)
    requires CanUndo(h, r, d) && d.Moved? && Ends(h, d)
    ensures UndoLinks(h, d).Keys == h.Keys && Elems(UndoRing(r, d)) == Elems(r)
    ensures h[d.b1].next == d.a1
  {
    UndoStep(h, r, d);
    UndoElems(h, r, d);
    MovedEnds(h, r, d);
  }

  lemma MoveShape(r: seq<Line>, line1: nat, n: nat, num: nat)
    requires 1 <= line1 && n > 0 && line1 + n <= |r| && num < |r|
    requires num + 1 < line1 || line1 + n <= num
    ensures var q, k := MovedRingOf(r, line1, n, num), MoveTo(line1, n, num);
      && |q| == |r| && q[0] == r[0]
      && (num < line1 ==> q[num] == r[num])
      && (num >= line1 ==> q[line1 - 1] == r[line1 - 1])
      && k >= 1 && k + n <= |q| && q[k - 1] == r[num] && At(q, k + n) == At(r, num + 1)
      && forall i :: 0 <= i < |q| ==> q[i] in r
  {
    var w, k, s := Cut(r, line1, n), MoveTo(line1, n, num), r[line1..line1 + n];
    var q := MovedRingOf(r, line1, n, num);
    CutShape(r, line1, n);
    forall i | 0 <= i < |q| ensures q[i] in r {
      SpliceIndex(w, k, s, i);
    }
  }

  /** What move needs of the links, and the list it leaves. */
  lemma MoveLands(h: Links<Line>, r: seq<Line>, line1: nat, n: nat, num: nat)
    requires IsRing(h, r) && 1 <= line1 && n > 0 && line1 + n <= |r| && num < |r|
    requires num + 1 < line1 || line1 + n <= num
    ensures var d := MoveChange(r, line1, n, num);
      && d.b1 in h && d.a1 in h && d.b2 in h && d.a2 in h && h[d.b2].next in h && h[d.b1].next == d.a1
      && Requeue(h, d.b1, h[d.b2].next)[d.a2].prev in h
      && Ends(h, d) && UndoLinks(h, d) == UnMove(h, d.b1, d.a1, d.b2, d.a2)
      && IsRing(UndoLinks(h, d), MovedRingOf(r, line1, n, num))
      && UndoLinks(h, d).Keys == h.Keys
  {
    hide CanUndo, MovedRingOf;
    var d := MoveChange(r, line1, n, num);
    MoveFits(h, r, line1, n, num);
    MovedStepParts(h, r, d);
    MoveKeeps(h, r, d);
  }

  lemma MovedStepParts(h: Links<Line>, r: seq<Line>, d: Change<Line>)
    requires CanUndo(h, r, d) && d.Moved?
    ensures Ends(h, d) && IsRing(UndoLinks(h, d), UndoRing(r, d))
  {
    UndoStep(h, r, d);
  }

  /** Moving lines ts[line1 - 1..line2] to after line num. */
  function MovedText(ts: seq<string>, line1: nat, line2: nat, num: nat): seq<string>
    requires 1 <= line1 <= line2 <= |ts| && num <= |ts| && (num < line1 || line2 <= num)
  {
    if num < line1 then ts[..num] + ts[line1 - 1..line2] + ts[num..line1 - 1] + ts[line2..]
    else ts[..line1 - 1] + ts[line2..num] + ts[line1 - 1..line2] + ts[num..]
  }

  lemma MovedRingFlat(r: seq<Line>, line1: nat, n: nat, num: nat)
    requires 1 <= line1 && n > 0 && line1 + n <= |r| && num < |r| && (num < line1 || line1 + n <= num + 1)
    ensures MovedRingOf(r, line1, n, num) ==
      if num < line1 then r[..num + 1] + r[line1..line1 + n] + r[num + 1..line1] + r[line1 + n..|r|]
      else r[..line1] + r[line1 + n..num + 1] + r[line1..line1 + n] + r[num + 1..|r|]
  {
    var w := Cut(r, line1, n);
    if num < line1 {
      assert w[..num + 1] == r[..num + 1] && w[num + 1..] == r[num + 1..line1] + r[line1 + n..];
    } else {
      assert w[..num + 1 - n] == r[..line1] + r[line1 + n..num + 1] && w[num + 1 - n..] == r[num + 1..];
    }
  }

  lemma TextsPieces(data: string, a: seq<Line>, b: seq<Line>, c: seq<Line>, d: seq<Line>)
    requires |a| > 0
    ensures Texts(data, (a + b + c + d)[1..]) == Texts(data, a[1..]) + Texts(data, b) + Texts(data, c) + Texts(data, d)
  {
    assert (a + b + c + d)[1..] == a[1..] + b + c + d;
  }

  lemma TextsSlice(data: string, r: seq<Line>, i: nat, j: nat)
    requires 1 <= i <= j <= |r|
    ensures Texts(data, r[i..j]) == Texts(data, r[1..])[i - 1..j - 1]
  {
  }

  lemma TextsMovedUp(data: string, r: seq<Line>, line1: nat, n: nat, num: nat)
    requires 1 <= line1 && n > 0 && line1 + n <= |r| && num < line1
    ensures Texts(data, (r[..num + 1] + r[line1..line1 + n] + r[num + 1..line1] + r[line1 + n..|r|])[1..])
         == MovedText(Texts(data, r[1..]), line1, line1 + n - 1, num)
  {
    hide Texts;
    FirstPiece(data, r, num + 1);
    TextsSlice(data, r, line1, line1 + n);
    TextsSlice(data, r, num + 1, line1);
    LastPiece(data, r, line1 + n);
    TextsPieces(data, r[..num + 1], r[line1..line1 + n], r[num + 1..line1], r[line1 + n..|r|]);
  }

  lemma FirstPiece(data: string, r: seq<Line>, k: nat)
    requires 1 <= k <= |r|
    ensures Texts(data, r[..k][1..]) == Texts(data, r[1..])[..k - 1]
  {
    hide Texts;
    assert r[..k][1..] == r[1..k];
    TextsSlice(data, r, 1, k);
  }

  lemma LastPiece(data: string, r: seq<Line>, k: nat)
    requires 1 <= k <= |r|
    ensures Texts(data, r[k..|r|]) == Texts(data, r[1..])[k - 1..]
  {
    hide Texts;
    TextsSlice(data, r, k, |r|);
    var ts := Texts(data, r[1..]);
    assert ts[k - 1..|r| - 1] == ts[k - 1..];
  }

  lemma TextsMovedDown(data: string, r: seq<Line>, line1: nat, n: nat, num: nat)
    requires 1 <= line1 && n > 0 && line1 + n <= num + 1 && num < |r|
    ensures Texts(data, (r[..line1] + r[line1 + n..num + 1] + r[line1..line1 + n] + r[num + 1..|r|])[1..])
         == MovedText(Texts(data, r[1..]), line1, line1 + n - 1, num)
  {
    hide Texts;
    FirstPiece(data, r, line1);
    TextsSlice(data, r, line1 + n, num + 1);
    TextsSlice(data, r, line1, line1 + n);
    LastPiece(data, r, num + 1);
    TextsPieces(data, r[..line1], r[line1 + n..num + 1], r[line1..line1 + n], r[num + 1..|r|]);
  }

  lemma TextsMoved(data: string, r: seq<Line>, line1: nat, n: nat, num: nat)
    requires 1 <= line1 && n > 0 && line1 + n <= |r| && num < |r| && (num < line1 || line1 + n <= num + 1)
    ensures Texts(data, MovedRingOf(r, line1, n, num)[1..])
         == MovedText(Texts(data, r[1..]), line1, line1 + n - 1, num)
  {
    hide Texts, MovedRingOf, MovedText;
    MovedRingFlat(r, line1, n, num);
    if num < line1 {
      TextsMovedUp(data, r, line1, n, num);
    } else {
      TextsMovedDown(data, r, line1, n, num);
    }
  }

  lemma MoveStays(r: seq<Line>, line1: nat, n: nat, num: nat)
    requires 1 <= line1 && n > 0 && line1 + n <= |r| && (num == line1 - 1 || num == line1 + n - 1)
    ensures MovedRingOf(r, line1, n, num) == r && MoveTo(line1, n, num) == line1
  {
    SpliceCut(r, line1, n);
  }
  // ---- Undo ----

  /** undo, partway through: the first n entries of the stack are still to be undone and lead on
      to base; the others are undone and toggled, and read backwards lead back to top. */
  ghost predicate Halfway(h: Links<Line>, q: seq<Line>, stack: seq<Entry<Line>>, n: nat,
                          todo: seq<Change<Line>>, done: seq<Change<Line>>, base: seq<Line>, top: seq<Line>)
  {
    && n <= |stack|
    && Undoable(h, q, todo, base) && Undoable(h, q, done, top)
    && Encodes(stack[..n], todo) && Encodes(Rev(stack[n..]), done)
  }

  /** The entries on top of the stack, and what they store. */
  lemma TopEntries(stack: seq<Entry<Line>>, n: nat, todo: seq<Change<Line>>)
    requires 0 < n <= |stack| && Encodes(stack[..n], todo)
    ensures todo != []
    ensures var c := todo[|todo| - 1];
      && n >= Width(c) && |c.seg| > 0
      && Stores(stack[n - Width(c)..n], c)
      && (c.Added? ==> stack[n - 1] == Entry(UADD, c.seg[0], c.seg[|c.seg| - 1]))
      && (c.Deleted? ==> stack[n - 1] == Entry(UDEL, c.seg[0], c.seg[|c.seg| - 1]))
      && (c.Moved? ==> n >= 2 && stack[n - 1].kind in {UMOV, VMOV})
      && (c.Moved? ==> stack[n - 1].h == c.b2 && stack[n - 1].t == c.a2)
      && (c.Moved? ==> stack[n - 2].h == c.b1 && stack[n - 2].t == c.a1)
      && Encodes(stack[..n - Width(c)], todo[..|todo| - 1])
  {
    var c := todo[|todo| - 1];
    var w := Width(c);
    assert stack[..n][n - w..] == stack[n - w..n];
    assert stack[..n][..n - w] == stack[..n - w];
    assert stack[n - w..n][w - 1] == stack[n - 1];
    if c.Moved? { assert stack[n - w..n][0] == stack[n - 2]; }
  }

  /** The stack with entry m toggled. */
  function Toggled(stack: seq<Entry<Line>>, m: nat): seq<Entry<Line>>
    requires m < |stack|
  {
    stack[m := stack[m].(kind := Toggle(stack[m].kind))]
  }

  lemma ToggledStored(stack: seq<Entry<Line>>, n: nat, c: Change<Line>, done: seq<Change<Line>>)
    requires Width(c) <= n <= |stack| && Stores(stack[n - Width(c)..n], c) && Encodes(Rev(stack[n..]), done)
    ensures var s := Toggled(stack, n - Width(c));
      s[..n - Width(c)] == stack[..n - Width(c)] && Encodes(Rev(s[n - Width(c)..]), done + [Inverse(c)])
  {
    var m := n - Width(c);
    var s, e := Toggled(stack, m), stack[m..n];
    var f := e[0 := e[0].(kind := Toggle(e[0].kind))];
    StoresInverse(e, c);
    assert s[m..] == f + stack[n..];
    RevConcat(f, stack[n..]);
    EncodesPush(Rev(stack[n..]), done, Rev(f), Inverse(c));
  }

  /** One iteration of undo. */
  lemma HalfwayStep(h: Links<Line>, q: seq<Line>, stack: seq<Entry<Line>>, n: nat,
                    todo: seq<Change<Line>>, done: seq<Change<Line>>, base: seq<Line>, top: seq<Line>)
    requires Halfway(h, q, stack, n, todo, done, base, top) && todo != []
    requires var c := todo[|todo| - 1];
      n >= Width(c) && Stores(stack[n - Width(c)..n], c) && Encodes(stack[..n - Width(c)], todo[..|todo| - 1])
    ensures var c := todo[|todo| - 1];
      && Ends(h, c) && Fits(q, c) && UndoLinks(h, c).Keys == h.Keys
      && Halfway(UndoLinks(h, c), UndoRing(q, c), Toggled(stack, n - Width(c)), n - Width(c),
                 todo[..|todo| - 1], done + [Inverse(c)], base, top)
  {
    hide Encodes, Stores, Rev;
    var c := todo[|todo| - 1];
    UndoLast(h, q, todo, base, done, top);
    UndoKeys(h, q, c);
    ToggledStored(stack, n, c, done);
  }

  lemma UndoKeys(h: Links<Line>, q: seq<Line>, c: Change<Line>)
    requires CanUndo(h, q, c)
    ensures Ends(h, c) && UndoLinks(h, c).Keys == h.Keys
  {
    UndoStep(h, q, c);
  }

  lemma StartUndo(h: Links<Line>, r: seq<Line>, stack: seq<Entry<Line>>, log: seq<Change<Line>>, base: seq<Line>)
    requires Undoable(h, r, log, base) && Encodes(stack, log)
    ensures Halfway(h, r, stack, |stack|, log, [], base, r)
    ensures [] + Reversed(log) == Reversed(log)
  {
    UndoableIsRing(h, r, log, base);
    assert stack[..|stack|] == stack;
    assert Rev(stack[|stack|..]) == [];
  }

  lemma Encoded(h: Links<Line>, q: seq<Line>, stack: seq<Entry<Line>>, n: nat,
                todo: seq<Change<Line>>, done: seq<Change<Line>>, base: seq<Line>, top: seq<Line>)
    requires Halfway(h, q, stack, n, todo, done, base, top) && n > 0
    ensures n <= |stack| && Encodes(stack[..n], todo) && todo != []
    ensures done + Reversed(todo) == done + [Inverse(todo[|todo| - 1])] + Reversed(todo[..|todo| - 1])
  {
    hide Undoable;
  }

  lemma EndUndo(h: Links<Line>, q: seq<Line>, stack: seq<Entry<Line>>,
                todo: seq<Change<Line>>, done: seq<Change<Line>>, base: seq<Line>, top: seq<Line>)
    requires Halfway(h, q, stack, 0, todo, done, base, top)
    ensures todo == [] && q == base
  {
    assert stack[..0] == [];
  }

  /** undo, done: what it relies on for the next time. */
  lemma UndoneLogged(h: Links<Line>, r: seq<Line>, log: seq<Change<Line>>, base: seq<Line>, stack: seq<Entry<Line>>,
                     uc: int, ul: int, g: Links<Line>, q: seq<Line>, flipped: seq<Entry<Line>>, cur: nat, last: nat)
    requires LoggedIn(h, r, log, base, stack, uc, ul) && uc != -1
    requires Halfway(g, q, flipped, 0, [], Reversed(log), base, r) && g.Keys == h.Keys
    requires |r| == last + 1 && cur <= last
    ensures q == base && 0 <= uc <= ul && Shape(g, base, r[0], uc, ul, 0, r[0])
    ensures LoggedIn(g, base, Reversed(log), r, Rev(flipped), cur, last)
  {
    hide Encodes, Settled;
    BaseRoot(h, r, log, base);
    Accounting(h, r, log, base);
    ReversedSettled(log);
    ReversedSwapsElems(log);
    assert flipped[0..] == flipped;
  }

  // ---- Freeing what undo no longer needs ----

  /** g is h without some nodes. */
  ghost predicate Fewer(g: Links<Line>, h: Links<Line>) {
    forall n :: n in g ==> n in h && g[n] == h[n]
  }

  /** ureset, partway through: the first n entries of the stack, which store todo, are still to be
      looked at (half: of the two entries for its last change, a move, one has been); all nodes
      in deleted runs of later changes are freed, and no others. */
  ghost predicate Freeing(h: Links<Line>, g: Links<Line>, r: seq<Line>, log: seq<Change<Line>>,
                          stack: seq<Entry<Line>>, n: nat, todo: seq<Change<Line>>, half: bool)
  {
    && n <= |stack| && todo <= log && Fewer(g, h)
    && g.Keys == Elems(r) + Dead(todo)
    && if half then
         todo != [] && todo[|todo| - 1].Moved? && n > 0 && stack[n - 1].kind in {UMOV, VMOV}
         && Encodes(stack[..n - 1], todo[..|todo| - 1])
       else Encodes(stack[..n], todo)
  }

  lemma StartFreeing(h: Links<Line>, r: seq<Line>, log: seq<Change<Line>>, base: seq<Line>,
                     stack: seq<Entry<Line>>, uc: int, ul: int)
    requires LoggedIn(h, r, log, base, stack, uc, ul)
    ensures Freeing(h, h, r, log, stack, |stack|, log, false)
  {
    hide Undoable, Encodes, Settled, Dead;
    assert stack[..|stack|] == stack;
  }

  /** The entry to look at next, if it is not the second of a move: what it stores; and if it is
      for a deletion, the run it deleted. */
  lemma NextFreed(h: Links<Line>, g: Links<Line>, r: seq<Line>, log: seq<Change<Line>>, base: seq<Line>,
                  stack: seq<Entry<Line>>, uc: int, ul: int, n: nat, todo: seq<Change<Line>>)
    requires LoggedIn(h, r, log, base, stack, uc, ul)
    requires Freeing(h, g, r, log, stack, n, todo, false) && n > 0
    ensures todo != []
    ensures var c, rest := todo[|todo| - 1], todo[..|todo| - 1];
      && (c.Deleted? <==> stack[n - 1].kind == UDEL)
      && (c.Deleted? ==> |c.seg| > 0 && stack[n - 1].h == c.seg[0] && stack[n - 1].t == c.seg[|c.seg| - 1])
      && (c.Deleted? ==> Chain(h, c.seg) && c.seg[|c.seg| - 1] in h && h[c.seg[|c.seg| - 1]].next !in c.seg && Apart(c.seg, r))
      && (c.Deleted? ==> Dead(todo) == Dead(rest) + Elems(c.seg))
      && (c.Deleted? ==> forall x :: x in c.seg ==> x !in Dead(rest))
      && (c.Deleted? ==> forall x :: x in c.seg ==> x in g)
      && (!c.Deleted? ==> Dead(todo) == Dead(rest))
  {
    TopEntries(stack, n, todo);
    var i := |todo| - 1;
    assert todo[i] == log[i];
    if log[i].Deleted? {
      DeadRun(h, r, log, base, i);
      DeadOffRing(h, r, log, base, i);
      DeadApart(h, r, log, base, i);
      assert log[..i] == todo[..i];
    }
  }

  lemma DeadApart(h: Links<Line>, r: seq<Line>, log: seq<Change<Line>>, base: seq<Line>, i: nat)
    requires Undoable(h, r, log, base) && Settled(log) && i < |log| && log[i].Deleted?
    ensures forall x :: x in log[i].seg ==> x !in Dead(log[..i])
  {
    forall x | x in log[i].seg ensures x !in Dead(log[..i]) {
      DeadMember(log[..i], x);
      forall j | 0 <= j < i && log[j].Deleted? ensures x !in log[j].seg {
        DeadRunsApart(h, r, log, base, j, i);
      }
    }
  }

  /** What is known after an entry is dealt with. */
  lemma FreedEntry(h: Links<Line>, g: Links<Line>, k: Links<Line>, r: seq<Line>, log: seq<Change<Line>>,
                   stack: seq<Entry<Line>>, n: nat, todo: seq<Change<Line>>)
    requires Freeing(h, g, r, log, stack, n, todo, false) && n > 0 && todo != []
    requires Fewer(k, g)
    requires var c, rest := todo[|todo| - 1], todo[..|todo| - 1];
      && (if c.Deleted? then k.Keys == g.Keys - Elems(c.seg) else k == g)
      && (c.Deleted? ==> Dead(todo) == Dead(rest) + Elems(c.seg) && Apart(c.seg, r))
      && (c.Deleted? ==> forall x :: x in c.seg ==> x !in Dead(rest))
      && (!c.Deleted? ==> Dead(todo) == Dead(rest))
    ensures todo[|todo| - 1].Moved? ==> n > 1 && Freeing(h, k, r, log, stack, n - 1, todo, true)
    ensures !todo[|todo| - 1].Moved? ==> Freeing(h, k, r, log, stack, n - 1, todo[..|todo| - 1], false)
  {
    hide Dead;
    TopEntries(stack, n, todo);
  }

  lemma FreedMove(h: Links<Line>, g: Links<Line>, r: seq<Line>, log: seq<Change<Line>>,
                  stack: seq<Entry<Line>>, n: nat, todo: seq<Change<Line>>)
    requires Freeing(h, g, r, log, stack, n, todo, true)
    ensures n > 0 && stack[n - 1].kind in {UMOV, VMOV} && todo != []
    ensures Freeing(h, g, r, log, stack, n - 1, todo[..|todo| - 1], false)
  {
    var rest := todo[..|todo| - 1];
    assert Dead(todo) == Dead(rest);
  }

  lemma FewerParts(h: Links<Line>, g: Links<Line>, data: string)
    requires Holds(h) && StoredIn(data, h.Keys) && Fewer(g, h)
    ensures Holds(g) && StoredIn(data, g.Keys)
  {
  }

  lemma DoneFreeing(h: Links<Line>, g: Links<Line>, r: seq<Line>, root: Line, log: seq<Change<Line>>,
                    stack: seq<Entry<Line>>, todo: seq<Change<Line>>, cur: nat, last: nat, on: nat, lp: Line)
    requires Shape(h, r, root, cur, last, on, lp) && Freeing(h, g, r, log, stack, 0, todo, false)
    ensures g.Keys == Elems(r) && Shape(g, r, root, cur, last, on, lp)
    ensures LoggedIn(g, r, [], r, [], cur, last)
  {
    assert todo == [];
    RingKept(h, g, r);
  }

  lemma RingKept(h: Links<Line>, g: Links<Line>, r: seq<Line>)
    requires IsRing(h, r) && Fewer(g, h) && g.Keys == Elems(r)
    ensures IsRing(g, r)
  {
    forall i | 0 <= i < |r| ensures LinkedAt(g, r, i) {
      RingAt(h, r, i);
      assert r[i] in Elems(r);
    }
  }

  // ---- Marks ----

  lemma {:induction false} CountUpdate(mark: seq<Line?>, i: nat, l: Line?)
    requires i < |mark|
    ensures Count(mark[i := l]) == Count(mark) - (if mark[i] == null then 0 else 1) + (if l == null then 0 else 1)
  {
    if i < |mark| - 1 {
      CountUpdate(mark[..|mark| - 1], i, l);
      assert mark[i := l][..|mark| - 1] == mark[..|mark| - 1][i := l];
    } else {
      assert mark[i := l][..|mark| - 1] == mark[..|mark| - 1];
    }
  }

  lemma {:induction false} CountPositive(mark: seq<Line?>, i: nat)
    requires i < |mark| && mark[i] != null
    ensures Count(mark) > 0
  {
    if i < |mark| - 1 { CountPositive(mark[..|mark| - 1], i); }
  }

  /** The marks, with those on l taken off. */
  ghost function Unmarked(mark: seq<Line?>, l: Line): (m: seq<Line?>)
    ensures |m| == |mark|
  {
    seq(|mark|, i requires 0 <= i < |mark| => if mark[i] == l then null else mark[i])
  }

  /** m is m0 without the marks on lines that are no longer allocated. */
  ghost predicate Cleared(m: seq<Line?>, m0: seq<Line?>, nodes: set<Line>) {
    && |m| == |m0|
    && forall i :: 0 <= i < |m| ==> m[i] == if m0[i] != null && m0[i] in nodes then m0[i] else null
  }

  lemma ClearedStart(mark: seq<Line?>, markno: nat, nodes: set<Line>)
    requires MarkedIn(mark, markno, nodes)
    ensures Cleared(mark, mark, nodes) && |mark| == MAXMARK && markno == Count(mark)
  {
    hide Count;
  }

  lemma ClearedMore(m: seq<Line?>, m0: seq<Line?>, nodes: set<Line>, l: Line)
    requires Cleared(m, m0, nodes)
    ensures Cleared(Unmarked(m, l), m0, nodes - {l})
  {
  }

  lemma ClearedEnd(m: seq<Line?>, m0: seq<Line?>, markno: nat, nodes: set<Line>)
    requires Cleared(m, m0, nodes) && |m| == MAXMARK && markno == Count(m)
    ensures MarkedIn(m, markno, nodes)
  {
    hide Count;
  }

  lemma RunLeft(s: seq<Line>, j: nat)
    requires NoDup(s) && j < |s|
    ensures s[j] !in s[..j] && Elems(s[..j + 1]) == Elems(s[..j]) + {s[j]}
  {
    if s[j] in s[..j] {
      var i :| 0 <= i < j && s[i] == s[j];
      SameIndex(s, i, j);
    }
    assert s[..j + 1] == s[..j] + [s[j]];
  }
}
