/** The shell's table of processes and jobs, as values: a list of processes, rings of friends that make
    up jobs, the numbers that identify them, and how a flush, a new process and a reaping change them. */
module Jobs {
  import opened Basics
  import opened Rings

  datatype Flags = Flags(running: bool, stopped: bool, nexited: bool, aexited: bool, signaled: bool, interrupted: bool,
                         notify: bool, foregnd: bool, reported: bool, dumped: bool, neednote: bool)

  predicate OneOf(a: bool, b: bool, c: bool, d: bool, e: bool, f: bool) {
    if a then !b && !c && !d && !e && !f
    else if b then !c && !d && !e && !f
    else if c then !d && !e && !f
    else if d then !e && !f
    else e != f
  }

  /** Exactly one of the flags of PALLSTATES. */
  predicate OneState(f: Flags) {
    OneOf(f.running, f.stopped, f.nexited, f.aexited, f.signaled, f.interrupted)
  }

  /** What is running or stopped is neither ended nor the other. */
  lemma Going(a: bool, b: bool, c: bool, d: bool, e: bool, f: bool)
    requires OneOf(a, b, c, d, e, f) && (a || b)
    ensures !c && !d && !e && !f && a != b && OneOf(true, false, c, d, e, f) && OneOf(false, true, c, d, e, f)
    ensures OneOf(false, false, true, d, e, f) && OneOf(false, false, c, true, e, f)
    ensures OneOf(false, false, c, d, true, f) && OneOf(false, false, c, d, e, true)
  {
  }

  class Process {
    var next: Process?
    var friends: Process?
    var flags: Flags
    var reason: int
    var index: nat
    var pid: nat
    var jobid: nat

    constructor (pid: nat, flags: Flags)
      ensures this.pid == pid && this.flags == flags && next == null && friends == null && index == 0 && jobid == 0
    {
      this.pid, this.flags, next, friends, index, jobid, reason := pid, flags, null, null, 0, 0, 0;
    }
  }

  datatype Id = Id(pid: nat, jobid: nat, index: nat)

  type Ids = map<Process, Id>
  type Ptrs = map<Process, Process?>
  type RingOf = map<Process, seq<Process>>

  /** The list after a process is ps. */
  ghost predicate Listed(nexts: Ptrs, from: Process, ps: seq<Process>)
    decreases |ps|
  {
    from in nexts &&
    if ps == [] then nexts[from] == null else nexts[from] == ps[0] && Listed(nexts, ps[0], ps[1..])
  }

  ghost predicate FriendAt(fr: Ptrs, r: seq<Process>, i: nat)
    requires i < |r|
  {
    r[i] in fr && fr[r[i]] == if i + 1 < |r| then r[i + 1] else r[0]
  }

  /** The friends of each make a circle of r. */
  ghost predicate Circle(fr: Ptrs, r: seq<Process>) {
    |r| > 0 && NoDup(r) && forall i :: 0 <= i < |r| ==> FriendAt(fr, r, i)
  }

  ghost predicate LiveAt(ids: Ids, p: Process, leader: Process) {
    && p in ids && leader in ids && ids[p].pid > 0
    && ids[p].jobid == ids[leader].pid && ids[p].index == ids[leader].index > 0
  }

  ghost predicate DeadAt(ids: Ids, p: Process) {
    p in ids && ids[p].pid == 0 && ids[p].index == 0 && ids[p].jobid > 0
  }

  /** A job: all live, their leader first, or all flushed. */
  ghost predicate Whole(ids: Ids, r: seq<Process>) {
    |r| > 0 && ((forall p :: p in r ==> LiveAt(ids, p, r[0])) || (forall p :: p in r ==> DeadAt(ids, p)))
  }

  ghost predicate Closed(procs: seq<Process>, ring: RingOf, p: Process) {
    p in ring && p in ring[p] && forall m :: m in ring[p] ==> m in procs && m in ring && ring[m] == ring[p]
  }

  ghost predicate JobOf(fr: Ptrs, ids: Ids, procs: seq<Process>, ring: RingOf, p: Process) {
    Closed(procs, ring, p) && Circle(fr, ring[p]) && Whole(ids, ring[p])
  }

  ghost predicate JobsOf(fr: Ptrs, ids: Ids, procs: seq<Process>, ring: RingOf) {
    forall p :: p in procs ==> JobOf(fr, ids, procs, ring, p)
  }

  predicate Leads(ids: Ids, p: Process) {
    p in ids && ids[p].pid > 0 && ids[p].pid == ids[p].jobid
  }

  ghost predicate PidsDiffer(ids: Ids, p: Process, q: Process) {
    p in ids && q in ids && (p != q && ids[p].pid > 0 ==> ids[p].pid != ids[q].pid)
  }

  ghost predicate IndexesDiffer(ids: Ids, p: Process, q: Process) {
    p != q && Leads(ids, p) && Leads(ids, q) ==> ids[p].index != ids[q].index
  }

  ghost predicate Distinct(ids: Ids, procs: seq<Process>) {
    && (forall p, q :: p in procs && q in procs ==> PidsDiffer(ids, p, q))
    && (forall p, q :: p in procs && q in procs ==> IndexesDiffer(ids, p, q))
  }

  /** max is the largest index in use; 0, if there is none. */
  ghost predicate MaxIs(ids: Ids, procs: seq<Process>, max: nat) {
    && (forall p :: p in procs ==> p in ids && ids[p].index <= max)
    && (max > 0 ==> exists p :: p in procs && p in ids && ids[p].index == max)
  }

  /** Everything that does not depend on flags. */
  ghost predicate Table(fr: Ptrs, ids: Ids, procs: seq<Process>, ring: RingOf, max: nat) {
    NoDup(procs) && JobsOf(fr, ids, procs, ring) && Distinct(ids, procs) && MaxIs(ids, procs, max)
  }

  /** Current and previous job: leaders of jobs, not the same, and no previous without a current. */
  ghost predicate Currents(ids: Ids, procs: seq<Process>, cur: Process?, prev: Process?) {
    && (cur == null ==> prev == null)
    && (cur != null ==> cur in procs && Leads(ids, cur))
    && (prev != null ==> prev in procs && Leads(ids, prev) && prev != cur)
  }

  /** The flags of processes: one state for each that is live; a note only for those. */
  ghost predicate States(flags: map<Process, Flags>, ids: Ids, procs: seq<Process>) {
    forall p :: p in procs ==>
      && p in flags && p in ids
      && (ids[p].pid > 0 ==> OneState(flags[p])) && (ids[p].pid == 0 ==> !flags[p].neednote)
  }

  // ---- Rings ----

  lemma JobIs(fr: Ptrs, ids: Ids, procs: seq<Process>, ring: RingOf, max: nat, p: Process)
    requires Table(fr, ids, procs, ring, max) && p in procs
    ensures JobOf(fr, ids, procs, ring, p) && p in ids
    ensures ids[p].pid > 0 ==> forall m :: m in ring[p] ==> LiveAt(ids, m, ring[p][0])
    ensures ids[p].pid == 0 ==> forall m :: m in ring[p] ==> DeadAt(ids, m)
  {
    assert JobOf(fr, ids, procs, ring, p);
  }

  /** The one leader of a live job is the first of it. */
  lemma OneLeader(fr: Ptrs, ids: Ids, procs: seq<Process>, ring: RingOf, max: nat, p: Process, m: Process)
    requires Table(fr, ids, procs, ring, max) && p in procs && p in ids && ids[p].pid > 0 && m in ring[p]
    ensures m in ids && (Leads(ids, m) <==> m == ring[p][0]) && m in procs && ids[m].pid > 0
    ensures ids[m].pid != ids[m].jobid <==> m != ring[p][0]
  {
    JobIs(fr, ids, procs, ring, max, p);
    var l := ring[p][0];
    assert LiveAt(ids, m, l) && LiveAt(ids, l, l) && l in procs;
    assert PidsDiffer(ids, m, l);
  }

  /** A circle can be gone round from any of its members. */
  lemma Turned(fr: Ptrs, r: seq<Process>, k: nat)
    requires Circle(fr, r) && k < |r|
    ensures Circle(fr, r[k..] + r[..k]) && (r[k..] + r[..k])[0] == r[k]
    ensures forall p :: p in r[k..] + r[..k] <==> p in r
  {
    var w := r[k..] + r[..k];
    forall i, j | 0 <= i < j < |w| ensures Differ(w, i, j) {
      var a, b := if i < |r| - k then k + i else i - (|r| - k), if j < |r| - k then k + j else j - (|r| - k);
      assert w[i] == r[a] && w[j] == r[b] && a != b;
      assert Differ(r, if a < b then a else b, if a < b then b else a);
    }
    forall i | 0 <= i < |w| ensures FriendAt(fr, w, i) {
      assert FriendAt(fr, r, if i < |r| - k then k + i else i - (|r| - k));
    }
    forall p | p in r ensures p in w {
      var i :| 0 <= i < |r| && r[i] == p;
      assert w[if i >= k then i - k else |r| - k + i] == p;
    }
  }

  // ---- Flushing a job ----

  ghost function Flushed(ids: Ids, r: seq<Process>): Ids {
    map p | p in ids :: if p in r then Id(0, ids[p].jobid, 0) else ids[p]
  }

  lemma FlushedTable(fr: Ptrs, ids: Ids, procs: seq<Process>, ring: RingOf, max: nat, p: Process)
    requires Table(fr, ids, procs, ring, max) && p in procs && p in ids && ids[p].pid > 0
    ensures var g := Flushed(ids, ring[p]);
      JobsOf(fr, g, procs, ring) && Distinct(g, procs)
  {
    var r, g := ring[p], Flushed(ids, ring[p]);
    JobIs(fr, ids, procs, ring, max, p);
    forall q | q in procs ensures JobOf(fr, g, procs, ring, q) {
      JobIs(fr, ids, procs, ring, max, q);
      if q in r {
        assert forall m :: m in ring[q] ==> LiveAt(ids, m, r[0]) && DeadAt(g, m);
      } else {
        assert forall m :: m in ring[q] ==> m !in r;
        if ids[q].pid > 0 {
          assert forall m :: m in ring[q] ==> LiveAt(g, m, ring[q][0]) by {
            forall m | m in ring[q] ensures LiveAt(g, m, ring[q][0]) {
              assert LiveAt(ids, m, ring[q][0]);
            }
          }
        } else {
          assert forall m :: m in ring[q] ==> DeadAt(g, m) by {
            forall m | m in ring[q] ensures DeadAt(g, m) {
              assert DeadAt(ids, m);
            }
          }
        }
      }
    }
    FlushedDistinct(ids, procs, r);
  }

  lemma FlushedDistinct(ids: Ids, procs: seq<Process>, r: seq<Process>)
    requires Distinct(ids, procs)
    ensures Distinct(Flushed(ids, r), procs)
  {
    var g := Flushed(ids, r);
    forall p, q | p in procs && q in procs ensures PidsDiffer(g, p, q) && IndexesDiffer(g, p, q) {
      assert PidsDiffer(ids, p, q) && IndexesDiffer(ids, p, q);
    }
  }

  // ---- New processes ----

  /** A process that is a job of its own. */
  lemma NewJob(fr: Ptrs, ids: Ids, procs: seq<Process>, ring: RingOf, max: nat, pp: Process, pid: nat, index: nat)
    requires Table(fr, ids, procs, ring, max) && pp !in procs && pid > 0 && index > 0
    requires forall p :: p in procs ==> p in ids && ids[p].pid != pid && ids[p].index != index
    ensures Table(fr[pp := pp], ids[pp := Id(pid, pid, index)], [pp] + procs, ring[pp := [pp]], if index > max then index else max)
  {
    var fr1: Ptrs, ids1, procs1, ring1 := fr[pp := pp], ids[pp := Id(pid, pid, index)], [pp] + procs, ring[pp := [pp]];
    NoDupMore(procs, pp);
    forall q | q in procs1 ensures JobOf(fr1, ids1, procs1, ring1, q) {
      if q == pp {
        assert LiveAt(ids1, pp, pp) && FriendAt(fr1, [pp], 0);
      } else {
        JobIs(fr, ids, procs, ring, max, q);
        Elsewhere(fr, ids, procs, ring, fr1, ids1, procs1, ring1, q);
      }
    }
    forall p, q | p in procs1 && q in procs1 ensures PidsDiffer(ids1, p, q) && IndexesDiffer(ids1, p, q) {
      if p != pp && q != pp { assert PidsDiffer(ids, p, q) && IndexesDiffer(ids, p, q); }
    }
    var max1 := if index > max then index else max;
    assert exists p :: p in procs1 && p in ids1 && ids1[p].index == max1 by {
      if index > max {
        assert pp in procs1 && ids1[pp].index == max1;
      } else {
        var p: Process :| p in procs && p in ids && ids[p].index == max;
        assert p in procs1 && ids1[p].index == max1;
      }
    }
  }

  lemma NoDupMore(procs: seq<Process>, pp: Process)
    requires NoDup(procs) && pp !in procs
    ensures NoDup([pp] + procs)
  {
    var ps := [pp] + procs;
    forall i, j | 0 <= i < j < |ps| ensures Differ(ps, i, j) {
      if i > 0 { assert Differ(procs, i - 1, j - 1); }
    }
  }

  /** A job that no change touches. */
  lemma Elsewhere(fr: Ptrs, ids: Ids, procs: seq<Process>, ring: RingOf,
                  fr1: Ptrs, ids1: Ids, procs1: seq<Process>, ring1: RingOf, q: Process)
    requires JobOf(fr, ids, procs, ring, q) && forall p :: p in procs ==> p in procs1
    requires forall m :: m in ring[q] ==> m in ring1 && ring1[m] == ring[q]
    requires forall m :: m in ring[q] && m in fr ==> m in fr1 && fr1[m] == fr[m]
    requires forall m :: m in ring[q] && m in ids ==> m in ids1 && ids1[m] == ids[m]
    ensures JobOf(fr1, ids1, procs1, ring1, q)
  {
    var r := ring[q];
    forall i | 0 <= i < |r| ensures FriendAt(fr1, r, i) {
      assert FriendAt(fr, r, i) && r[i] in r;
    }
    if forall m :: m in r ==> LiveAt(ids, m, r[0]) {
      assert r[0] in r;
      forall m | m in r ensures LiveAt(ids1, m, r[0]) {
        assert LiveAt(ids, m, r[0]) && LiveAt(ids, r[0], r[0]);
      }
    } else {
      forall m | m in r ensures DeadAt(ids1, m) {
        assert DeadAt(ids, m);
      }
    }
  }

  ghost function Joined(ring: RingOf, r: seq<Process>, pp: Process): RingOf {
    (map p | p in ring :: if p in r then r + [pp] else ring[p])[pp := r + [pp]]
  }

  /** A process that joins the job of its friend. */
  lemma NewFriend(fr: Ptrs, ids: Ids, procs: seq<Process>, ring: RingOf, max: nat, pp: Process, pid: nat, leader: Process)
    requires Table(fr, ids, procs, ring, max) && pp !in procs && pid > 0 && leader in procs && Leads(ids, leader)
    requires forall p :: p in procs ==> p in ids && ids[p].pid != pid
    ensures var r := ring[leader];
      Table(fr[r[|r| - 1] := pp][pp := leader], ids[pp := Id(pid, ids[leader].pid, ids[leader].index)],
            [pp] + procs, Joined(ring, r, pp), max)
  {
    JobIs(fr, ids, procs, ring, max, leader);
    OneLeader(fr, ids, procs, ring, max, leader, leader);
    var r := ring[leader];
    var s := r + [pp];
    var fr1, ids1 := fr[r[|r| - 1] := pp][pp := leader], ids[pp := Id(pid, ids[leader].pid, ids[leader].index)];
    var procs1, ring1 := [pp] + procs, Joined(ring, r, pp);
    NoDupMore(procs, pp);
    GrownCircle(fr, r, pp);
    GrownJob(ids, r, pp, pid);
    forall q | q in procs1 ensures JobOf(fr1, ids1, procs1, ring1, q) {
      if q in s {
        assert ring1[q] == s;
      } else {
        JobIs(fr, ids, procs, ring, max, q);
        assert forall m :: m in ring[q] ==> m !in r && m != pp;
        assert r[|r| - 1] in r;
        Elsewhere(fr, ids, procs, ring, fr1, ids1, procs1, ring1, q);
      }
    }
    GrownDistinct(fr, ids, procs, ring, max, pp, pid, leader);
  }

  lemma GrownCircle(fr: Ptrs, r: seq<Process>, pp: Process)
    requires Circle(fr, r) && pp !in r
    ensures Circle(fr[r[|r| - 1] := pp][pp := r[0]], r + [pp])
  {
    var s, fr1 := r + [pp], fr[r[|r| - 1] := pp][pp := r[0]];
    forall i, j | 0 <= i < j < |s| ensures Differ(s, i, j) {
      if j < |r| { assert Differ(r, i, j); }
    }
    forall i | 0 <= i < |s| ensures FriendAt(fr1, s, i) {
      if i < |r| - 1 { assert FriendAt(fr, r, i) && Differ(r, i, |r| - 1); }
    }
  }

  lemma GrownJob(ids: Ids, r: seq<Process>, pp: Process, pid: nat)
    requires |r| > 0 && pp !in r && pid > 0 && forall p :: p in r ==> LiveAt(ids, p, r[0])
    ensures r[0] in ids && Whole(ids[pp := Id(pid, ids[r[0]].pid, ids[r[0]].index)], r + [pp])
  {
    assert r[0] in r && LiveAt(ids, r[0], r[0]);
    var ids1, s := ids[pp := Id(pid, ids[r[0]].pid, ids[r[0]].index)], r + [pp];
    forall p | p in s ensures LiveAt(ids1, p, s[0]) {
      if p != pp { assert p in r && LiveAt(ids, p, r[0]); }
    }
  }

  lemma GrownDistinct(fr: Ptrs, ids: Ids, procs: seq<Process>, ring: RingOf, max: nat, pp: Process, pid: nat, leader: Process)
    requires Table(fr, ids, procs, ring, max) && pp !in procs && pid > 0 && leader in procs && Leads(ids, leader)
    requires forall p :: p in procs ==> p in ids && ids[p].pid != pid
    ensures var ids1 := ids[pp := Id(pid, ids[leader].pid, ids[leader].index)];
      Distinct(ids1, [pp] + procs) && MaxIs(ids1, [pp] + procs, max)
  {
    var ids1, procs1 := ids[pp := Id(pid, ids[leader].pid, ids[leader].index)], [pp] + procs;
    forall p, q | p in procs1 && q in procs1 ensures PidsDiffer(ids1, p, q) && IndexesDiffer(ids1, p, q) {
      if p != pp && q != pp { assert PidsDiffer(ids, p, q) && IndexesDiffer(ids, p, q); }
    }
    if max > 0 {
      var p: Process :| p in procs && p in ids && ids[p].index == max;
      assert p in procs1 && ids1[p].index == max;
    }
  }

  // ---- Reaping ----

  /** The processes not flushed, in order. */
  ghost function Live(ids: Ids, ps: seq<Process>): seq<Process> {
    if ps == [] then []
    else
      var p := ps[|ps| - 1];
      var l := Live(ids, ps[..|ps| - 1]);
      if p in ids && ids[p].pid > 0 then l + [p] else l
  }

  lemma {:induction false} LiveIs(ids: Ids, ps: seq<Process>, p: Process)
    ensures p in Live(ids, ps) <==> p in ps && p in ids && ids[p].pid > 0
  {
    if ps != [] {
      LiveIs(ids, ps[..|ps| - 1], p);
      assert ps == ps[..|ps| - 1] + [ps[|ps| - 1]];
    }
  }

  lemma {:induction false} LiveNoDup(ids: Ids, ps: seq<Process>)
    requires NoDup(ps)
    ensures NoDup(Live(ids, ps))
  {
    if ps != [] {
      var k := |ps| - 1;
      forall i, j | 0 <= i < j < k ensures Differ(ps[..k], i, j) { assert Differ(ps, i, j); }
      LiveNoDup(ids, ps[..k]);
      var l := Live(ids, ps[..k]);
      forall i | 0 <= i < k ensures ps[..k][i] != ps[k] { assert Differ(ps, i, k); }
      LiveIs(ids, ps[..k], ps[k]);
      forall i, j | 0 <= i < j < |l + [ps[k]]| ensures Differ(l + [ps[k]], i, j) {
        if j < |l| { assert Differ(l, i, j); } else { assert l[i] in l; }
      }
    }
  }

  lemma Reaped(fr: Ptrs, ids: Ids, procs: seq<Process>, ring: RingOf, max: nat)
    requires Table(fr, ids, procs, ring, max)
    ensures Table(fr, ids, Live(ids, procs), ring, max)
  {
    var l := Live(ids, procs);
    LiveNoDup(ids, procs);
    forall p: Process | p in l ensures p in procs { LiveIs(ids, procs, p); }
    forall q: Process | q in l ensures JobOf(fr, ids, l, ring, q) {
      LiveIs(ids, procs, q);
      JobIs(fr, ids, procs, ring, max, q);
      forall m: Process | m in ring[q] ensures m in l {
        assert LiveAt(ids, m, ring[q][0]);
        LiveIs(ids, procs, m);
      }
    }
    if max > 0 {
      var p: Process :| p in procs && p in ids && ids[p].index == max;
      JobIs(fr, ids, procs, ring, max, p);
      LiveIs(ids, procs, p);
      assert DeadAt(ids, p) || p in l;
    }
  }

  // ---- Flags of a whole job ----

  const NONE := Flags(false, false, false, false, false, false, false, false, false, false, false)

  function Or(f: Flags, g: Flags): Flags {
    Flags(f.running || g.running, f.stopped || g.stopped, f.nexited || g.nexited, f.aexited || g.aexited,
          f.signaled || g.signaled, f.interrupted || g.interrupted, f.notify || g.notify, f.foregnd || g.foregnd,
          f.reported || g.reported, f.dumped || g.dumped, f.neednote || g.neednote)
  }

  ghost function JobFlags(flags: map<Process, Flags>, r: seq<Process>): Flags {
    if r == [] then NONE
    else
      var p := r[|r| - 1];
      Or(JobFlags(flags, r[..|r| - 1]), if p in flags then flags[p] else NONE)
  }

  lemma {:induction false} JobFlagsConcat(flags: map<Process, Flags>, a: seq<Process>, b: seq<Process>)
    ensures JobFlags(flags, a + b) == Or(JobFlags(flags, a), JobFlags(flags, b))
  {
    hide Or;
    if b == [] {
      assert a + b == a;
      OrLaws(JobFlags(flags, a), NONE, NONE);
    } else {
      var p := b[|b| - 1];
      var f := if p in flags then flags[p] else NONE;
      JobFlagsConcat(flags, a, b[..|b| - 1]);
      assert (a + b)[..|a + b| - 1] == a + b[..|b| - 1];
      OrLaws(JobFlags(flags, a), JobFlags(flags, b[..|b| - 1]), f);
    }
  }

  lemma OrLaws(f: Flags, g: Flags, h: Flags)
    ensures Or(Or(f, g), h) == Or(f, Or(g, h)) && Or(f, g) == Or(g, f) && Or(f, NONE) == f
  {
  }

  /** It does not matter where in the ring one starts. */
  lemma JobFlagsTurned(flags: map<Process, Flags>, r: seq<Process>, k: nat)
    requires k <= |r|
    ensures JobFlags(flags, r[k..] + r[..k]) == JobFlags(flags, r)
  {
    JobFlagsConcat(flags, r[k..], r[..k]);
    JobFlagsConcat(flags, r[..k], r[k..]);
    assert r[..k] + r[k..] == r;
    OrLaws(JobFlags(flags, r[..k]), JobFlags(flags, r[k..]), NONE);
  }

  lemma AroundOnce(fr: Ptrs, w: seq<Process>, j: nat)
    requires Circle(fr, w) && j > 0
    ensures j < |w| ==> w[j] != w[0]
  {
    if j < |w| { assert Differ(w, 0, j); }
  }

  ghost function Changed(flags: map<Process, Flags>, r: seq<Process>, change: Flags -> Flags): map<Process, Flags> {
    map p | p in flags :: if p in r then change(flags[p]) else flags[p]
  }

  lemma ChangedNone(flags: map<Process, Flags>, change: Flags -> Flags)
    ensures Changed(flags, [], change) == flags
  {
  }

  lemma ChangedSame(flags: map<Process, Flags>, w: seq<Process>, r: seq<Process>, change: Flags -> Flags)
    requires forall p :: p in w <==> p in r
    ensures Changed(flags, w, change) == Changed(flags, r, change)
  {
  }

  /** One step of a loop round a ring. */
  lemma ChangedStep(flags: map<Process, Flags>, w: seq<Process>, j: nat, change: Flags -> Flags)
    requires NoDup(w) && j < |w| && w[j] in flags
    ensures w[j] in Changed(flags, w[..j], change) && Changed(flags, w[..j], change)[w[j]] == flags[w[j]]
    ensures Changed(flags, w[..j + 1], change) == Changed(flags, w[..j], change)[w[j] := change(flags[w[j]])]
  {
    Fresh(w, j);
    assert w[..j + 1] == w[..j] + [w[j]];
  }

  lemma Fresh(w: seq<Process>, j: nat)
    requires NoDup(w) && j < |w|
    ensures w[j] !in w[..j]
  {
    forall i | 0 <= i < j ensures w[..j][i] != w[j] { assert Differ(w, i, j); }
  }

  lemma FlushedNone(ids: Ids)
    ensures Flushed(ids, []) == ids
  {
  }

  lemma FlushedStep(ids: Ids, w: seq<Process>, j: nat)
    requires NoDup(w) && j < |w| && w[j] in ids
    ensures w[j] in Flushed(ids, w[..j]) && Flushed(ids, w[..j])[w[j]] == ids[w[j]]
    ensures Flushed(ids, w[..j + 1]) == Flushed(ids, w[..j])[w[j] := Id(0, ids[w[j]].jobid, 0)]
  {
    Fresh(w, j);
    assert w[..j + 1] == w[..j] + [w[j]];
  }

  function Unnote(f: Flags): Flags {
    f.(neednote := false)
  }

  /** What a flush leaves of the current jobs, the states, and the largest index. */
  lemma FlushedRest(fr: Ptrs, ids: Ids, procs: seq<Process>, ring: RingOf, max: nat, flags: map<Process, Flags>, p: Process)
    requires Table(fr, ids, procs, ring, max) && p in procs && p in ids && ids[p].pid > 0 && States(flags, ids, procs)
    ensures var r := ring[p];
      var g := Flushed(ids, r);
      && States(Changed(flags, r, Unnote), g, procs)
      && (forall q :: q in procs && Leads(ids, q) && q != r[0] ==> Leads(g, q))
      && r[0] in ids && (ids[r[0]].index != max ==> MaxIs(g, procs, max))
  {
    var r, g := ring[p], Flushed(ids, ring[p]);
    JobIs(fr, ids, procs, ring, max, p);
    assert LiveAt(ids, p, r[0]);
    forall q | q in procs && Leads(ids, q) && q != r[0] ensures Leads(g, q) {
      if q in r { OneLeader(fr, ids, procs, ring, max, p, q); }
    }
    if ids[r[0]].index != max && max > 0 {
      var q: Process :| q in procs && q in ids && ids[q].index == max;
      assert q !in r by { assert q in r ==> LiveAt(ids, q, r[0]); }
      assert g[q].index == max;
    }
  }

  // ---- Indexes ----

  const BIGINDEX: nat := 9

  /** The leaders of the live jobs: as many as there are jobs. */
  ghost function Leaders(ids: Ids, procs: seq<Process>): set<Process> {
    set p | p in procs && Leads(ids, p)
  }

  ghost function Indexes(ids: Ids, ps: set<Process>): set<nat>
    requires forall p :: p in ps ==> p in ids
  {
    set p | p in ps :: ids[p].index
  }

  lemma {:induction false} FewIndexes(ids: Ids, ps: set<Process>)
    requires forall p :: p in ps ==> p in ids
    ensures |Indexes(ids, ps)| <= |ps|
  {
    if ps != {} {
      var p :| p in ps;
      FewIndexes(ids, ps - {p});
      assert Indexes(ids, ps) <= Indexes(ids, ps - {p}) + {ids[p].index};
      SubsetSize(Indexes(ids, ps), Indexes(ids, ps - {p}) + {ids[p].index});
    }
  }

  function Upto(n: nat): set<nat> {
    if n <= 1 then {} else Upto(n - 1) + {n - 1}
  }

  lemma {:induction false} UptoIs(n: nat)
    ensures forall i: nat :: i in Upto(n) <==> 0 < i < n
    ensures |Upto(n)| == if n == 0 then 0 else n - 1
  {
    if n > 1 { UptoIs(n - 1); }
  }

  ghost predicate Used(ids: Ids, procs: seq<Process>, i: int) {
    exists p :: p in procs && p in ids && ids[p].index == i
  }

  /** If all the indexes below n are in use, there are that many jobs. */
  lemma AllUsed(fr: Ptrs, ids: Ids, procs: seq<Process>, ring: RingOf, max: nat, n: nat)
    requires Table(fr, ids, procs, ring, max) && n > 0
    requires forall j :: 0 < j < n ==> Used(ids, procs, j)
    ensures n - 1 <= |Leaders(ids, procs)|
  {
    var ls := Leaders(ids, procs);
    forall j: nat | j in Upto(n) ensures j in Indexes(ids, ls) {
      UptoIs(n);
      assert Used(ids, procs, j);
      var p: Process :| p in procs && p in ids && ids[p].index == j;
      JobIs(fr, ids, procs, ring, max, p);
      assert !DeadAt(ids, p);
      assert LiveAt(ids, p, ring[p][0]);
      OneLeader(fr, ids, procs, ring, max, p, ring[p][0]);
      assert ring[p][0] in ls && ids[ring[p][0]].index == j;
    }
    UptoIs(n);
    SubsetSize(Upto(n), Indexes(ids, ls));
    FewIndexes(ids, ls);
  }

  // ---- A new record in the tables and the list ----

  lemma {:induction false} ListedFrame(nexts: Ptrs, nexts1: Ptrs, from: Process, ps: seq<Process>)
    requires Listed(nexts, from, ps)
    requires forall p :: (p == from || p in ps) && p in nexts ==> p in nexts1 && nexts1[p] == nexts[p]
    ensures Listed(nexts1, from, ps)
    decreases |ps|
  {
    if ps != [] { ListedFrame(nexts, nexts1, ps[0], ps[1..]); }
  }

  lemma ListedMore(nexts: Ptrs, head: Process, ps: seq<Process>, pp: Process)
    requires Listed(nexts, head, ps) && pp !in nexts && head !in ps
    ensures Listed(nexts[pp := nexts[head]][head := pp], head, [pp] + ps)
  {
    var nexts1 := nexts[pp := nexts[head]][head := pp];
    ListedIn(nexts, head, ps);
    if ps != [] {
      ListedFrame(nexts, nexts1, ps[0], ps[1..]);
    }
    assert ([pp] + ps)[1..] == ps;
  }

  lemma {:induction false} ListedIn(nexts: Ptrs, head: Process, ps: seq<Process>)
    requires Listed(nexts, head, ps)
    ensures head in nexts && forall p :: p in ps ==> p in nexts
    decreases |ps|
  {
    if ps != [] { ListedIn(nexts, ps[0], ps[1..]); }
  }

  /** A record that is not in the list does not matter. */
  lemma TableGrown(fr: Ptrs, ids: Ids, procs: seq<Process>, ring: RingOf, max: nat, pp: Process, q: Process?, id: Id)
    requires Table(fr, ids, procs, ring, max) && pp !in procs
    ensures Table(fr[pp := q], ids[pp := id], procs, ring, max)
    ensures Leaders(ids[pp := id], procs) == Leaders(ids, procs)
  {
    var fr1: Ptrs, ids1 := fr[pp := q], ids[pp := id];
    forall p | p in procs ensures JobOf(fr1, ids1, procs, ring, p) {
      JobIs(fr, ids, procs, ring, max, p);
      Elsewhere(fr, ids, procs, ring, fr1, ids1, procs, ring, p);
    }
    forall p, q | p in procs && q in procs ensures PidsDiffer(ids1, p, q) && IndexesDiffer(ids1, p, q) {
      assert PidsDiffer(ids, p, q) && IndexesDiffer(ids, p, q);
    }
    if max > 0 {
      var p: Process :| p in procs && p in ids && ids[p].index == max;
      assert ids1[p].index == max;
    }
    assert Leaders(ids1, procs) == Leaders(ids, procs);
  }

  lemma CircleGrown(fr: Ptrs, r: seq<Process>, pp: Process, q: Process?)
    requires Circle(fr, r) && pp !in r
    ensures Circle(fr[pp := q], r)
  {
    var fr1: Ptrs := fr[pp := q];
    forall i | 0 <= i < |r| ensures FriendAt(fr1, r, i) {
      assert FriendAt(fr, r, i);
    }
  }

  /** The current jobs with a new job in the list: it takes a place that is free. */
  lemma CurrentsGrown(ids: Ids, procs: seq<Process>, cur: Process?, prev: Process?, pp: Process, id: Id)
    requires Currents(ids, procs, cur, prev) && pp !in procs
    ensures Currents(ids[pp := id], [pp] + procs, cur, prev)
    ensures id.pid > 0 && id.pid == id.jobid ==>
      if cur == null then Currents(ids[pp := id], [pp] + procs, pp, null)
      else prev == null ==> Currents(ids[pp := id], [pp] + procs, cur, pp)
  {
  }

  lemma StatesGrown(flags: map<Process, Flags>, ids: Ids, procs: seq<Process>, pp: Process, f: Flags, id: Id)
    requires States(flags, ids, procs) && pp !in procs && OneState(f) && id.pid > 0
    ensures States(flags[pp := f], ids[pp := id], [pp] + procs)
  {
  }
  // ---- What a wait says of a process, and continuing one ----

  datatype Why = Stopped(sig: nat) | Signaled(sig: nat, core: bool) | Exited(code: int)

  const SIGINT: nat := 2

  /** The flags of a process that was reported. */
  function After(f: Flags, why: Why): Flags {
    var g := f.(running := false, stopped := false, reported := false);
    match why
    case Stopped(_) => g.(stopped := true)
    case Signaled(sig, core) =>
      var h := if core then g.(dumped := true) else g;
      if sig == SIGINT then h.(interrupted := true) else h.(signaled := true)
    case Exited(code) => if code != 0 then g.(aexited := true) else g.(nexited := true)
  }

  /** A stopped process of a job that has no running one is reported. */
  function Report(f: Flags): Flags {
    if f.stopped then f.(reported := true) else f
  }

  function ToForeground(f: Flags): Flags {
    if f.running || f.stopped then f.(running := true, stopped := false, foregnd := true) else f
  }

  function ToBackground(f: Flags): Flags {
    if f.running || f.stopped then f.(running := true, stopped := false, foregnd := false) else f
  }

  lemma AfterOne(f: Flags, why: Why)
    requires OneState(f) && (f.running || f.stopped)
    ensures OneState(After(f, why)) && !After(f, why).running
  {
    hide OneState, After;
    match why
    case Stopped(sig) => StoppedOne(f, sig);
    case Signaled(sig, core) => SignaledOne(f, sig, core);
    case Exited(code) => ExitedOne(f, code);
  }

  lemma StoppedOne(f: Flags, sig: nat)
    requires OneState(f) && (f.running || f.stopped)
    ensures OneState(After(f, Stopped(sig))) && !After(f, Stopped(sig)).running
  {
    hide OneOf;
    Going(f.running, f.stopped, f.nexited, f.aexited, f.signaled, f.interrupted);
  }

  lemma SignaledOne(f: Flags, sig: nat, core: bool)
    requires OneState(f) && (f.running || f.stopped)
    ensures OneState(After(f, Signaled(sig, core))) && !After(f, Signaled(sig, core)).running
  {
    hide OneOf;
    Going(f.running, f.stopped, f.nexited, f.aexited, f.signaled, f.interrupted);
  }

  lemma ExitedOne(f: Flags, code: int)
    requires OneState(f) && (f.running || f.stopped)
    ensures OneState(After(f, Exited(code))) && !After(f, Exited(code)).running
  {
    hide OneOf;
    Going(f.running, f.stopped, f.nexited, f.aexited, f.signaled, f.interrupted);
  }

  ghost predicate Keeps(change: Flags -> Flags, f: Flags) {
    (OneState(f) ==> OneState(change(f))) && (change(f).neednote ==> f.neednote)
  }

  lemma ReportKeeps(f: Flags)
    ensures Keeps(Report, f)
  {
    hide OneOf;
  }

  lemma ForegroundKeeps(f: Flags)
    ensures Keeps(ToForeground, f)
  {
    hide OneOf;
    if OneState(f) && (f.running || f.stopped) {
      Going(f.running, f.stopped, f.nexited, f.aexited, f.signaled, f.interrupted);
    }
  }

  lemma BackgroundKeeps(f: Flags)
    ensures Keeps(ToBackground, f)
  {
    hide OneOf;
    if OneState(f) && (f.running || f.stopped) {
      Going(f.running, f.stopped, f.nexited, f.aexited, f.signaled, f.interrupted);
    }
  }

  function To(foregnd: bool): Flags -> Flags {
    if foregnd then ToForeground else ToBackground
  }

  lemma ToKeeps(foregnd: bool)
    ensures forall f :: Keeps(To(foregnd), f)
  {
    forall f ensures Keeps(ToForeground, f) && Keeps(ToBackground, f) {
      ForegroundKeeps(f);
      BackgroundKeeps(f);
    }
  }

  /** A change that keeps a process in one state, made to all of a job. */
  lemma StatesChanged(flags: map<Process, Flags>, ids: Ids, procs: seq<Process>, r: seq<Process>, change: Flags -> Flags)
    requires States(flags, ids, procs)
    requires forall f :: Keeps(change, f)
    ensures States(Changed(flags, r, change), ids, procs)
  {
    hide OneState;
    forall p | p in procs && p in flags ensures Keeps(change, flags[p]) {}
  }

  lemma StatesOne(flags: map<Process, Flags>, ids: Ids, procs: seq<Process>, p: Process, f: Flags)
    requires States(flags, ids, procs) && p in ids && ids[p].pid > 0 && OneState(f)
    ensures States(flags[p := f], ids, procs)
  {
    hide OneState;
  }

  /** The current jobs after a job has stopped. */
  lemma CurrentsStopped(ids: Ids, procs: seq<Process>, cur: Process?, prev: Process?, lead: Process)
    requires Currents(ids, procs, cur, prev) && lead in procs && Leads(ids, lead)
    ensures Currents(ids, procs, lead, if cur != null && cur != lead then cur else prev)
  {
  }

  // ---- Tables that agree on the processes of the list ----

  lemma TableAgrees(fr: Ptrs, ids: Ids, fr1: Ptrs, ids1: Ids, procs: seq<Process>, ring: RingOf, max: nat)
    requires Table(fr, ids, procs, ring, max)
    requires forall p :: p in procs ==> p in ids1 && (p in ids ==> ids1[p] == ids[p]) && (p in fr ==> p in fr1 && fr1[p] == fr[p])
    ensures Table(fr1, ids1, procs, ring, max)
  {
    forall p | p in procs ensures JobOf(fr1, ids1, procs, ring, p) {
      JobIs(fr, ids, procs, ring, max, p);
      Elsewhere(fr, ids, procs, ring, fr1, ids1, procs, ring, p);
    }
    forall p, q | p in procs && q in procs ensures PidsDiffer(ids1, p, q) && IndexesDiffer(ids1, p, q) {
      assert PidsDiffer(ids, p, q) && IndexesDiffer(ids, p, q);
    }
    if max > 0 {
      var p: Process :| p in procs && p in ids && ids[p].index == max;
      assert ids1[p].index == max;
    }
  }

  /** One process out of the list. */
  lemma {:induction false} ListedLess(nexts: Ptrs, head: Process, kept: seq<Process>, pp: Process, rest: seq<Process>)
    requires Listed(nexts, head, kept + [pp] + rest) && NoDup(kept + [pp] + rest) && head !in kept + [pp] + rest
    ensures var fp := if kept == [] then head else kept[|kept| - 1];
      && fp in nexts && nexts[fp] == pp && pp in nexts && nexts[pp] == (if rest == [] then null else rest[0])
      && Listed(nexts[fp := nexts[pp]] - {pp}, head, kept + rest)
    decreases |kept|
  {
    var ps := kept + [pp] + rest;
    var fp := if kept == [] then head else kept[|kept| - 1];
    ListedIn(nexts, head, ps);
    assert ps[0] in ps;
    if kept == [] {
      assert ps == [pp] + rest && ps[1..] == rest;
      forall i | 1 <= i < |ps| ensures ps[i] != pp { assert Differ(ps, 0, i); }
      assert forall p :: p in rest ==> p != pp by {
        forall p | p in rest ensures p != pp {
          var i :| 0 <= i < |rest| && rest[i] == p;
          assert ps[i + 1] == p;
        }
      }
      var nexts1 := nexts[fp := nexts[pp]] - {pp};
      if rest != [] {
        ListedFrame(nexts, nexts1, rest[0], rest[1..]);
        assert rest[1..] == ([] + rest)[1..];
      }
      assert [] + rest == rest;
    } else {
      var k := kept[0];
      assert ps[1..] == kept[1..] + [pp] + rest && ps[0] == k;
      assert NoDup(ps[1..]) by {
        forall i, j | 0 <= i < j < |ps[1..]| ensures Differ(ps[1..], i, j) { assert Differ(ps, i + 1, j + 1); }
      }
      forall i | 1 <= i < |ps| ensures ps[i] != k { assert Differ(ps, 0, i); }
      ListedLess(nexts, k, kept[1..], pp, rest);
      assert (kept + rest)[1..] == kept[1..] + rest && (kept + rest)[0] == k;
      assert ps[|kept|] == pp;
      var nexts1 := nexts[fp := nexts[pp]] - {pp};
      assert head != fp && head != pp by { assert kept[|kept| - 1] == ps[|kept| - 1]; }
    }
  }

  // ---- Reaping, step by step ----

  /** Tables cut down to the processes of the list. */
  ghost predicate Agree(fr0: Ptrs, ids0: Ids, flags0: map<Process, Flags>, fr: Ptrs, ids: Ids, flags: map<Process, Flags>,
                        procs: seq<Process>)
  {
    && ids.Keys == Elems(procs)
    && forall p :: p in procs ==>
         && p in ids && p in ids0 && ids[p] == ids0[p] && p in fr && p in fr0 && fr[p] == fr0[p]
         && p in flags && p in flags0 && flags[p] == flags0[p]
  }

  lemma AgreeLess(fr0: Ptrs, ids0: Ids, flags0: map<Process, Flags>, fr: Ptrs, ids: Ids, flags: map<Process, Flags>,
                  kept: seq<Process>, pp: Process, rest: seq<Process>)
    requires Agree(fr0, ids0, flags0, fr, ids, flags, kept + [pp] + rest) && NoDup(kept + [pp] + rest)
    ensures Agree(fr0, ids0, flags0, fr - {pp}, ids - {pp}, flags - {pp}, kept + rest) && NoDup(kept + rest)
  {
    var ps, qs := kept + [pp] + rest, kept + rest;
    forall i, j | 0 <= i < j < |qs| ensures Differ(qs, i, j) {
      assert Differ(ps, if i < |kept| then i else i + 1, if j < |kept| then j else j + 1);
    }
    forall i | 0 <= i < |qs| ensures qs[i] != pp && qs[i] in ps {
      assert ps[|kept|] == pp && ps[if i < |kept| then i else i + 1] == qs[i];
      assert if i < |kept| then Differ(ps, i, |kept|) else Differ(ps, |kept|, i + 1);
    }
    forall p | p in ps && p != pp ensures p in qs {
      var i :| 0 <= i < |ps| && ps[i] == p;
      assert qs[if i < |kept| then i else i - 1] == p;
    }
    assert Elems(qs) == Elems(ps) - {pp};
  }

  lemma LiveMore(ids: Ids, ps: seq<Process>, k: nat)
    requires k < |ps|
    ensures Live(ids, ps[..k + 1]) == Live(ids, ps[..k]) + if ps[k] in ids && ids[ps[k]].pid > 0 then [ps[k]] else []
  {
    assert ps[..k + 1][..k] == ps[..k];
  }

  /** After the reaping. */
  lemma ReapDone(fr0: Ptrs, ids0: Ids, flags0: map<Process, Flags>, fr: Ptrs, ids: Ids, flags: map<Process, Flags>,
                 procs0: seq<Process>, procs: seq<Process>, ring: RingOf, max: nat, cur: Process?, prev: Process?, job: Process?)
    requires Table(fr0, ids0, procs0, ring, max) && procs == Live(ids0, procs0)
    requires Agree(fr0, ids0, flags0, fr, ids, flags, procs) && States(flags0, ids0, procs0)
    requires Currents(ids0, procs0, cur, prev) && (job != null ==> job in procs0 && Leads(ids0, job))
    ensures Table(fr, ids, procs, ring, max) && States(flags, ids, procs) && Currents(ids, procs, cur, prev)
    ensures job != null ==> job in procs && Leads(ids, job)
    ensures forall p :: p in procs ==> p in ids && ids[p].pid > 0
  {
    Reaped(fr0, ids0, procs0, ring, max);
    TableAgrees(fr0, ids0, fr, ids, procs, ring, max);
    forall p: Process | p in procs ensures p in procs0 && p in ids && ids[p].pid > 0 { LiveIs(ids0, procs0, p); }
    if cur != null { LiveIs(ids0, procs0, cur); }
    if prev != null { LiveIs(ids0, procs0, prev); }
    if job != null { LiveIs(ids0, procs0, job); }
  }
}
