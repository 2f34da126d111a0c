/** The shell's job table as it runs: process records linked in one list and in rings of friends, and
    the current and previous job. */
module JobTable {
  import opened Basics
  import opened Rings
  import opened Jobs

  /** The process at a place in the list; past its end, null. */
  function Nth(ps: seq<Process>, k: nat): Process? {
    if k < |ps| then ps[k] else null
  }

  lemma {:induction false} ListedAt(nexts: Ptrs, from: Process, ps: seq<Process>, k: nat)
    requires Listed(nexts, from, ps) && k < |ps|
    ensures nexts[from] == ps[0] && ps[k] in nexts && nexts[ps[k]] == Nth(ps, k + 1)
    decreases |ps|
  {
    if k > 0 { ListedAt(nexts, ps[0], ps[1..], k - 1); }
  }

  /** The same processes in all the tables, and the head of the list in that of the list. */
  ghost predicate Keyed(nexts: Ptrs, friends: Ptrs, ids: Ids, flags: map<Process, Flags>, head: Process) {
    nexts.Keys == ids.Keys + {head} && friends.Keys == ids.Keys && flags.Keys == ids.Keys && head !in ids
  }

  lemma KeyedStill(nexts: Ptrs, friends: Ptrs, ids: Ids, flags: map<Process, Flags>, head: Process, p: Process,
                   id: Id, f: Flags, q: Process?)
    requires Keyed(nexts, friends, ids, flags, head) && p in ids
    ensures p in nexts && p in friends && p in flags && p != head
    ensures Keyed(nexts, friends, ids[p := id], flags, head) && ids[p := id].Keys == ids.Keys
    ensures Keyed(nexts, friends, ids, flags[p := f], head)
    ensures Keyed(nexts, friends[p := q], ids, flags, head)
    ensures Keyed(nexts[p := q], friends, ids, flags, head)
  {
    assert ids[p := id].Keys == ids.Keys && flags[p := f].Keys == flags.Keys;
    assert nexts[p := q].Keys == nexts.Keys && friends[p := q].Keys == friends.Keys;
  }

  lemma KeyedNext(nexts: Ptrs, friends: Ptrs, ids: Ids, flags: map<Process, Flags>, head: Process, p: Process, q: Process?)
    requires Keyed(nexts, friends, ids, flags, head) && p in nexts
    ensures Keyed(nexts[p := q], friends, ids, flags, head)
  {
    assert nexts[p := q].Keys == nexts.Keys;
  }

  lemma KeyedMore(nexts: Ptrs, friends: Ptrs, ids: Ids, flags: map<Process, Flags>, head: Process, p: Process, id: Id, f: Flags)
    requires Keyed(nexts, friends, ids, flags, head) && p !in nexts
    ensures Keyed(nexts[p := null], friends[p := null], ids[p := id], flags[p := f], head)
    ensures head in nexts && p !in ids && p !in friends && p !in flags
  {
  }

  lemma KeyedLess(nexts: Ptrs, friends: Ptrs, ids: Ids, flags: map<Process, Flags>, head: Process, p: Process)
    requires Keyed(nexts, friends, ids, flags, head) && p in ids
    ensures Keyed(nexts - {p}, friends - {p}, ids - {p}, flags - {p}, head)
  {
  }

  // ---- Choosing a current job ----

  predicate Eligible(ids: Ids, flags: map<Process, Flags>, p: Process, cur: Process?, pp: Process, stopped: bool) {
    p in flags && p != cur && p != pp && Leads(ids, p) && (stopped ==> flags[p].stopped)
  }

  /** The first of the list that will do. */
  function Pick(ids: Ids, flags: map<Process, Flags>, ps: seq<Process>, cur: Process?, pp: Process, stopped: bool): Process? {
    if ps == [] then null
    else if Eligible(ids, flags, ps[0], cur, pp, stopped) then ps[0]
    else Pick(ids, flags, ps[1..], cur, pp, stopped)
  }

  /** What pgetcurr chooses: the first stopped job, if there is one, else the first. */
  function GetCurr(ids: Ids, flags: map<Process, Flags>, ps: seq<Process>, cur: Process?, pp: Process): Process? {
    var s := Pick(ids, flags, ps, cur, pp, true);
    if s != null then s else Pick(ids, flags, ps, cur, pp, false)
  }

  lemma {:induction false} Picked(ids: Ids, flags: map<Process, Flags>, ps: seq<Process>, cur: Process?, pp: Process, stopped: bool)
    ensures var r := Pick(ids, flags, ps, cur, pp, stopped);
      && (r != null ==> r in ps && Eligible(ids, flags, r, cur, pp, stopped))
      && (r == null ==> forall p :: p in ps ==> !Eligible(ids, flags, p, cur, pp, stopped))
  {
    if ps != [] && !Eligible(ids, flags, ps[0], cur, pp, stopped) {
      Picked(ids, flags, ps[1..], cur, pp, stopped);
    }
  }

  /** Current and previous job without a job that was one of them, perhaps. */
  function Cleared(ids: Ids, flags: map<Process, Flags>, ps: seq<Process>, cur: Process?, prev: Process?, pp: Process)
      : (Process?, Process?) {
    if pp == cur then
      var c := if prev != null then prev else GetCurr(ids, flags, ps, cur, pp);
      (c, GetCurr(ids, flags, ps, c, pp))
    else if pp == prev then (cur, GetCurr(ids, flags, ps, cur, pp))
    else (cur, prev)
  }

  lemma GotCurr(ids: Ids, flags: map<Process, Flags>, ps: seq<Process>, cur: Process?, pp: Process)
    ensures var r := GetCurr(ids, flags, ps, cur, pp);
      && (r != null ==> r in ps && Leads(ids, r) && r != cur && r != pp)
      && (r == null ==> forall p :: p in ps && p in flags && p != cur && p != pp ==> !Leads(ids, p))
  {
    Picked(ids, flags, ps, cur, pp, true);
    Picked(ids, flags, ps, cur, pp, false);
    if GetCurr(ids, flags, ps, cur, pp) == null {
      assert forall p :: p in ps ==> !Eligible(ids, flags, p, cur, pp, false);
    }
  }

  lemma ClearedCurrents(ids: Ids, flags: map<Process, Flags>, ps: seq<Process>, cur: Process?, prev: Process?, pp: Process)
    requires Currents(ids, ps, cur, prev) && forall p :: p in ps ==> p in flags
    ensures var (c, q) := Cleared(ids, flags, ps, cur, prev, pp); Currents(ids, ps, c, q) && c != pp && q != pp
  {
    GotCurr(ids, flags, ps, cur, pp);
    var (c, q) := Cleared(ids, flags, ps, cur, prev, pp);
    GotCurr(ids, flags, ps, c, pp);
  }

  /** A new job takes the place of the current, or of the previous one, if there is none. */
  function WithNew(cur: Process?, prev: Process?, pp: Process): (Process?, Process?) {
    if cur == null then (pp, prev) else if prev == null then (cur, pp) else (cur, prev)
  }

  /** What can happen to the table. */
  datatype Event =
    | Fork(pid: nat, amp: bool)
    | Child(pid: nat, why: Why, notify: bool)
    | Start(index: nat, foregnd: bool)
    | Flush(pid: nat)
    | Wait
    | Note
    | EndJob

  // ---- The table as a value, and what each operation makes of it ----

  datatype State = State(ids: Ids, flags: map<Process, Flags>, procs: seq<Process>, ring: RingOf,
                         cur: Process?, prev: Process?, job: Process?)

  /** A job that is not flushed yet is out of the table: it has no pid and no index any more, needs no
      note, and is none of the current jobs. */
  ghost function AfterFlush(s: State, p: Process): State {
    if p in s.ids && s.ids[p].pid > 0 && p in s.ring && s.ring[p] != [] then
      var r := s.ring[p];
      var (c, q) := Cleared(s.ids, s.flags, s.procs, s.cur, s.prev, r[0]);
      State(Flushed(s.ids, r), Changed(s.flags, r, Unnote), s.procs, s.ring, c, q, if s.job == r[0] then null else s.job)
    else s
  }

  /** wait reported something of a process: only that process changes, if others of its job run, or if
      it has been reported; else the job has settled. */
  ghost function AfterChild(s: State, p: Process, why: Why, notify: bool): State {
    if p in s.flags && p in s.ring && s.ring[p] != [] then
      var f := After(s.flags[p], why);
      var jf := JobFlags(s.flags[p := f], s.ring[p]);
      var s2 := s.(flags := s.flags[p := f.(foregnd := false)]);
      if jf.running || jf.reported then s2 else AfterSettled(s2, p, jf, notify)
    else s
  }

  /** No process of a job runs: a stopped job becomes the current one, and one that is done none of
      them; if it is in the background it is flushed, or needs a note. */
  ghost function AfterSettled(s: State, p: Process, jf: Flags, notify: bool): State
    requires p in s.ring && s.ring[p] != []
  {
    var lead, f := s.ring[p][0], Changed(s.flags, s.ring[p], Report);
    var (c, q) :=
      if jf.stopped then (lead, if s.cur != null && s.cur != lead then s.cur else s.prev)
      else Cleared(s.ids, f, s.procs, s.cur, s.prev, lead);
    Announced(s.(flags := f, cur := c, prev := q), p, lead, jf, notify)
  }

  ghost function Announced(s: State, p: Process, lead: Process, jf: Flags, notify: bool): State {
    if jf.foregnd then s
    else if jf.notify || notify then if jf.stopped then s else AfterFlush(s, p)
    else s.(flags := WithNote(s.flags, lead))
  }

  ghost function WithNote(flags: map<Process, Flags>, p: Process): map<Process, Flags> {
    if p in flags then flags[p := flags[p].(neednote := true)] else flags
  }

  ghost function AfterStart(s: State, p: Process, foregnd: bool): State {
    if p !in s.ring then s
    else
      var f := Changed(s.flags, s.ring[p], To(foregnd));
      var (c, q) := if foregnd then (s.cur, s.prev) else Cleared(s.ids, f, s.procs, s.cur, s.prev, p);
      s.(flags := f, cur := c, prev := q)
  }

  /** The user has been told of a process: if its job is done, that is flushed. */
  ghost function AfterNoted(s: State, p: Process): State {
    if p in s.flags && s.flags[p].neednote && p in s.ring then
      var t := s.(flags := s.flags[p := s.flags[p].(neednote := false)]);
      var jf := JobFlags(t.flags, s.ring[p]);
      if jf.running || jf.stopped then t else AfterFlush(t, p)
    else s
  }

  /** So for the first k processes of the list, in order. */
  ghost function AfterNotes(s: State, k: nat): State
    requires k <= |s.procs|
  {
    if k == 0 then s else AfterNoted(AfterNotes(s, k - 1), s.procs[k - 1])
  }

  ghost function Only<V>(m: map<Process, V>, ps: seq<Process>): map<Process, V> {
    map p | p in m && p in ps :: m[p]
  }

  /** The flushed processes are gone. */
  ghost function AfterWait(s: State): State {
    var ps := Live(s.ids, s.procs);
    s.(ids := Only(s.ids, ps), flags := Only(s.flags, ps), procs := ps)
  }

  /** The index of a new job: one more than the largest, while that is small; then the least not used. */
  ghost predicate NewIs(ids: Ids, procs: seq<Process>, max: nat, i: nat) {
    if max < BIGINDEX then i == max + 1
    else i > 0 && !Used(ids, procs, i) && forall j :: 0 < j < i ==> Used(ids, procs, j)
  }

  /** A process was forked: it is of the job that is being made up, or the first of a new one. */
  ghost predicate Forked(s: State, pid: nat, amp: bool, t: State) {
    && t.procs != []
    && var pp := t.procs[0];
    && pp !in s.ids && t.procs == [pp] + s.procs && t.flags == s.flags[pp := NONE.(running := true, foregnd := !amp)]
    && if s.job != null then
         && s.job in s.ids && s.job in s.ring && t.ids == s.ids[pp := Id(pid, s.ids[s.job].pid, s.ids[s.job].index)]
         && t.ring == Joined(s.ring, s.ring[s.job], pp) && t.cur == s.cur && t.prev == s.prev && t.job == s.job
       else
         && pp in t.ids && t.ids == s.ids[pp := Id(pid, pid, t.ids[pp].index)] && t.ring == s.ring[pp := [pp]] && t.job == pp
         && (exists max :: MaxIs(s.ids, s.procs, max) && NewIs(s.ids, s.procs, max, t.ids[pp].index))
         && (t.cur, t.prev) == WithNew(s.cur, s.prev, pp)
  }

  lemma FriendForked(s: State, pid: nat, amp: bool, t: State, pp: Process)
    requires s.job != null && s.job in s.ids && s.job in s.ring && pp !in s.ids && t.procs == [pp] + s.procs
    requires t.flags == s.flags[pp := NONE.(running := true, foregnd := !amp)]
    requires t.ids == s.ids[pp := Id(pid, s.ids[s.job].pid, s.ids[s.job].index)] && t.ring == Joined(s.ring, s.ring[s.job], pp)
    requires t.cur == s.cur && t.prev == s.prev && t.job == s.job
    ensures Forked(s, pid, amp, t)
  {
  }

  lemma JobForked(s: State, pid: nat, amp: bool, t: State, pp: Process, i: nat, max: nat)
    requires s.job == null && pp !in s.ids && t.procs == [pp] + s.procs
    requires t.flags == s.flags[pp := NONE.(running := true, foregnd := !amp)]
    requires t.ids == s.ids[pp := Id(pid, pid, i)] && t.ring == s.ring[pp := [pp]] && t.job == pp
    requires MaxIs(s.ids, s.procs, max) && NewIs(s.ids, s.procs, max, i) && (t.cur, t.prev) == WithNew(s.cur, s.prev, pp)
    ensures Forked(s, pid, amp, t)
  {
    hide MaxIs, NewIs;
  }

  ghost predicate HasPid(s: State, p: Process, pid: nat) {
    p in s.ids && s.ids[p].pid == pid > 0
  }

  ghost predicate Reports(s: State, p: Process, pid: nat) {
    HasPid(s, p, pid) && p in s.flags && (s.flags[p].running || s.flags[p].stopped)
  }

  ghost predicate HasIndex(s: State, p: Process, index: nat) {
    Leads(s.ids, p) && s.ids[p].index == index
  }

  /** What an event makes of the table. What the system would not do changes nothing: give out the
      number of a process of the table, or tell of one that is neither running nor stopped. */
  ghost predicate Next(s: State, e: Event, t: State) {
    match e
    case Fork(pid, amp) =>
      if pid == 0 || exists p | p in s.procs :: HasPid(s, p, pid) then t == s else Forked(s, pid, amp, t)
    case Child(pid, why, notify) =>
      if exists p | p in s.procs :: Reports(s, p, pid) then exists p | p in s.procs :: Reports(s, p, pid) && t == AfterChild(s, p, why, notify) else t == s
    case Start(index, foregnd) =>
      if exists p | p in s.procs :: HasIndex(s, p, index) then exists p | p in s.procs :: HasIndex(s, p, index) && t == AfterStart(s, p, foregnd) else t == s
    case Flush(pid) =>
      if exists p | p in s.procs :: HasPid(s, p, pid) then exists p | p in s.procs :: HasPid(s, p, pid) && t == AfterFlush(s, p) else t == s
    case Wait => t == AfterWait(s)
    case Note => t == AfterNotes(s, |s.procs|)
    case EndJob => t == s.(job := null)
  }

  /** Sound tables: current jobs distinct leaders, one state flag for each process, numbers distinct,
      each ring of friends wholly live, with one leader, or wholly flushed. */
  ghost predicate Sound(s: State) {
    && Currents(s.ids, s.procs, s.cur, s.prev) && (s.job != null ==> s.job in s.procs && Leads(s.ids, s.job))
    && States(s.flags, s.ids, s.procs) && Distinct(s.ids, s.procs)
    && forall p :: p in s.procs ==> Closed(s.procs, s.ring, p) && p in s.ring && Whole(s.ids, s.ring[p])
  }

  /** A report of one job leaves the others alone. */
  lemma OthersAlone(s: State, p: Process, why: Why, notify: bool, m: Process)
    requires p in s.ring && p in s.ring[p] && m !in s.ring[p]
    ensures var t := AfterChild(s, p, why, notify);
      && (m in t.ids <==> m in s.ids) && (m in s.ids ==> t.ids[m] == s.ids[m])
      && (m in t.flags <==> m in s.flags) && (m in s.flags ==> t.flags[m] == s.flags[m])
  {
    hide After, JobFlags, AfterSettled;
    if p in s.flags {
      var f := After(s.flags[p], why);
      SettledAlone(s.(flags := s.flags[p := f.(foregnd := false)]), p, JobFlags(s.flags[p := f], s.ring[p]), notify, m);
    }
  }

  lemma SettledAlone(s: State, p: Process, jf: Flags, notify: bool, m: Process)
    requires p in s.ring && p in s.ring[p] && m !in s.ring[p]
    ensures var t := AfterSettled(s, p, jf, notify);
      && (m in t.ids <==> m in s.ids) && (m in s.ids ==> t.ids[m] == s.ids[m])
      && (m in t.flags <==> m in s.flags) && (m in s.flags ==> t.flags[m] == s.flags[m])
  {
    hide AfterFlush, Cleared, Changed;
    var lead, f := s.ring[p][0], Changed(s.flags, s.ring[p], Report);
    ChangedAt(s.flags, s.ring[p], Report, m);
    var (c, q) :=
      if jf.stopped then (lead, if s.cur != null && s.cur != lead then s.cur else s.prev)
      else Cleared(s.ids, f, s.procs, s.cur, s.prev, lead);
    FlushAlone(s.(flags := f, cur := c, prev := q), p, m);
    assert lead in s.ring[p];
  }

  lemma ChangedAt(flags: map<Process, Flags>, r: seq<Process>, change: Flags -> Flags, m: Process)
    requires m !in r
    ensures var g := Changed(flags, r, change); (m in g <==> m in flags) && (m in flags ==> g[m] == flags[m])
  {
  }

  lemma FlushAlone(s: State, p: Process, m: Process)
    requires p in s.ring && m !in s.ring[p]
    ensures var t := AfterFlush(s, p);
      && (m in t.ids <==> m in s.ids) && (m in s.ids ==> t.ids[m] == s.ids[m])
      && (m in t.flags <==> m in s.flags) && (m in s.flags ==> t.flags[m] == s.flags[m])
  {
    hide Cleared;
  }

  /** A job that has just stopped is the current one; one that is done is neither current nor previous. */
  lemma StoppedOrDone(s: State, p: Process, why: Why, notify: bool)
    requires Sound(s) && p in s.procs && p in s.flags && p in s.ring && s.ring[p] != []
    ensures var jf, lead, t :=
        JobFlags(s.flags[p := After(s.flags[p], why)], s.ring[p]), s.ring[p][0], AfterChild(s, p, why, notify);
      !jf.running && !jf.reported ==> if jf.stopped then t.cur == lead else t.cur != lead && t.prev != lead
  {
    hide After, JobFlags, Cleared, Whole, Closed, Distinct;
    var r, f := s.ring[p], s.flags[p := After(s.flags[p], why).(foregnd := false)];
    var g := Changed(f, r, Report);
    ClearedCurrents(s.ids, g, s.procs, s.cur, s.prev, r[0]);
    var (c, q) := Cleared(s.ids, g, s.procs, s.cur, s.prev, r[0]);
    StaysCleared(s.ids, g, s.procs, c, q, r[0]);
  }

  lemma StaysCleared(ids: Ids, flags: map<Process, Flags>, ps: seq<Process>, cur: Process?, prev: Process?, lead: Process)
    requires cur != lead && prev != lead
    ensures Cleared(ids, flags, ps, cur, prev, lead) == (cur, prev)
  {
  }

  class Table {
    const proclist: Process    // the head of the list

    var pcurrent: Process?
    var pprevious: Process?
    var pcurrjob: Process?
    var pmaxindex: nat

    ghost var nexts: Ptrs
    ghost var friends: Ptrs
    ghost var ids: Ids
    ghost var flags: map<Process, Flags>
    ghost var procs: seq<Process>
    ghost var ring: RingOf

    constructor (head: Process)
      requires head.next == null
      ensures Valid() && procs == [] && proclist == head && nexts.Keys == {head}
    {
      proclist, pcurrent, pprevious, pcurrjob, pmaxindex := head, null, null, null, 0;
      nexts, friends, ids, flags, procs, ring := map[head := null], map[], map[], map[], [], map[];
    }

    ghost predicate NextsHeld()
      reads `nexts, nexts.Keys`next
    {
      forall p :: p in nexts ==> nexts[p] == p.next
    }

    ghost predicate FriendsHeld()
      reads `friends, friends.Keys`friends
    {
      forall p :: p in friends ==> friends[p] == p.friends
    }

    ghost predicate IdsHeld()
      reads `ids, ids.Keys`pid, ids.Keys`jobid, ids.Keys`index
    {
      forall p :: p in ids ==> ids[p] == Id(p.pid, p.jobid, p.index)
    }

    ghost predicate FlagsHeld()
      reads `flags, flags.Keys`flags
    {
      forall p :: p in flags ==> flags[p] == p.flags
    }

    /** The ghost maps are what the records hold. */
    ghost predicate Held()
      reads `nexts, `friends, `ids, `flags, nexts.Keys`next, friends.Keys`friends, flags.Keys`flags
      reads ids.Keys`pid, ids.Keys`jobid, ids.Keys`index
    {
      Keyed(nexts, friends, ids, flags, proclist) && NextsHeld() && FriendsHeld() && IdsHeld() && FlagsHeld()
    }

    ghost predicate Listing()
      reads `nexts, `ids, `procs
    {
      Listed(nexts, proclist, procs) && Elems(procs) <= ids.Keys
    }

    ghost predicate Tabled()
      reads `friends, `ids, `procs, `ring, `pmaxindex
    {
      Jobs.Table(friends, ids, procs, ring, pmaxindex)
    }

    ghost predicate Current()
      reads `ids, `procs, `pcurrent, `pprevious, `pcurrjob
    {
      Currents(ids, procs, pcurrent, pprevious) && (pcurrjob != null ==> pcurrjob in procs && Leads(ids, pcurrjob))
    }

    ghost predicate Stated()
      reads `flags, `ids, `procs
    {
      States(flags, ids, procs)
    }

    ghost predicate Valid()
      reads this, nexts.Keys, friends.Keys, ids.Keys, flags.Keys
    {
      Held() && Listing() && Tabled() && Current() && Stated() && ids.Keys == Elems(procs)
    }

    ghost function Now(): State
      reads `ids, `flags, `procs, `ring, `pcurrent, `pprevious, `pcurrjob
    {
      State(ids, flags, procs, ring, pcurrent, pprevious, pcurrjob)
    }

    lemma NowSound()
      requires Valid()
      ensures Sound(Now())
    {
      hide Held, Listed, Circle, Whole, PidsDiffer, IndexesDiffer, Currents, States;
      forall p | p in procs ensures Closed(procs, ring, p) && p in ring && Whole(ids, ring[p]) { JobIs(friends, ids, procs, ring, pmaxindex, p); }
    }

    lemma HeldAt(p: Process)
      requires Held()
      ensures p in nexts ==> nexts[p] == p.next
      ensures p in ids ==> ids[p] == Id(p.pid, p.jobid, p.index) && p in friends && friends[p] == p.friends && p in flags && flags[p] == p.flags && p in nexts
    {
    }

    lemma HeldIn(k: nat)
      requires Held() && Listing() && k < |procs|
      ensures procs[k] in ids && procs[k] in nexts && procs[k] in flags && procs[k].next == Nth(procs, k + 1)
    {
      ListedAt(nexts, proclist, procs, k);
      assert procs[k] in Elems(procs);
    }

    lemma HeldHead()
      requires Held() && Listing()
      ensures proclist.next == Nth(procs, 0) && proclist in nexts
    {
    }

    method SetFlags(p: Process, f: Flags)
      requires FlagsHeld() && p in flags
      modifies p`flags, `flags
      ensures FlagsHeld() && flags == old(flags)[p := f]
    {
      p.flags := f;
      flags := flags[p := f];
    }

    method PutFlags(p: Process, f: Flags)
      requires Held() && p in ids
      modifies p`flags, `flags
      ensures Held() && flags == old(flags)[p := f]
    {
      hide NextsHeld, FriendsHeld, IdsHeld, FlagsHeld, Keyed;
      KeyedStill(nexts, friends, ids, flags, proclist, p, ids[p], f, null);
      SetFlags(p, f);
    }

    method SetPid(p: Process, x: nat)
      requires IdsHeld() && p in ids
      modifies p`pid, `ids
      ensures IdsHeld() && ids == old(ids)[p := old(ids)[p].(pid := x)]
    {
      p.pid := x;
      ids := ids[p := ids[p].(pid := x)];
    }

    method PutPid(p: Process, x: nat)
      requires Held() && p in ids
      modifies p`pid, `ids
      ensures Held() && ids == old(ids)[p := old(ids)[p].(pid := x)]
    {
      hide NextsHeld, FriendsHeld, IdsHeld, FlagsHeld, Keyed;
      KeyedStill(nexts, friends, ids, flags, proclist, p, ids[p].(pid := x), p.flags, null);
      SetPid(p, x);
    }

    method SetJobid(p: Process, x: nat)
      requires IdsHeld() && p in ids
      modifies p`jobid, `ids
      ensures IdsHeld() && ids == old(ids)[p := old(ids)[p].(jobid := x)]
    {
      p.jobid := x;
      ids := ids[p := ids[p].(jobid := x)];
    }

    method PutJobid(p: Process, x: nat)
      requires Held() && p in ids
      modifies p`jobid, `ids
      ensures Held() && ids == old(ids)[p := old(ids)[p].(jobid := x)]
    {
      hide NextsHeld, FriendsHeld, IdsHeld, FlagsHeld, Keyed;
      KeyedStill(nexts, friends, ids, flags, proclist, p, ids[p].(jobid := x), p.flags, null);
      SetJobid(p, x);
    }

    method SetIndex(p: Process, x: nat)
      requires IdsHeld() && p in ids
      modifies p`index, `ids
      ensures IdsHeld() && ids == old(ids)[p := old(ids)[p].(index := x)]
    {
      p.index := x;
      ids := ids[p := ids[p].(index := x)];
    }

    method PutIndex(p: Process, x: nat)
      requires Held() && p in ids
      modifies p`index, `ids
      ensures Held() && ids == old(ids)[p := old(ids)[p].(index := x)]
    {
      hide NextsHeld, FriendsHeld, IdsHeld, FlagsHeld, Keyed;
      KeyedStill(nexts, friends, ids, flags, proclist, p, ids[p].(index := x), p.flags, null);
      SetIndex(p, x);
    }

    method SetFriend(p: Process, q: Process)
      requires FriendsHeld() && p in friends
      modifies p`friends, `friends
      ensures FriendsHeld() && friends == old(friends)[p := q]
    {
      p.friends := q;
      friends := friends[p := q];
    }

    method PutFriend(p: Process, q: Process)
      requires Held() && p in ids
      modifies p`friends, `friends
      ensures Held() && friends == old(friends)[p := q]
    {
      hide NextsHeld, FriendsHeld, IdsHeld, FlagsHeld, Keyed;
      KeyedStill(nexts, friends, ids, flags, proclist, p, ids[p], p.flags, q);
      SetFriend(p, q);
    }

    method SetNext(p: Process, q: Process?)
      requires NextsHeld() && p in nexts
      modifies p`next, `nexts
      ensures NextsHeld() && nexts == old(nexts)[p := q]
    {
      p.next := q;
      nexts := nexts[p := q];
    }

    method PutNext(p: Process, q: Process?)
      requires Held() && p in nexts
      modifies p`next, `nexts
      ensures Held() && nexts == old(nexts)[p := q]
    {
      hide NextsHeld, FriendsHeld, IdsHeld, FlagsHeld, Keyed;
      KeyedNext(nexts, friends, ids, flags, proclist, p, q);
      SetNext(p, q);
    }

    // ---- pgetcurr, pclrcurr ----

    method PGetCurr(pp: Process) returns (r: Process?)
      requires Held() && Listing()
      ensures r == GetCurr(ids, flags, procs, pcurrent, pp)
    {
      hide Held, Listing, Leads;
      HeldHead();
      var np, xp := proclist.next, null;
      ghost var k := 0;
      assert procs[0..] == procs;
      while np != null
        invariant 0 <= k <= |procs| && np == Nth(procs, k)
        invariant Pick(ids, flags, procs, pcurrent, pp, true) == Pick(ids, flags, procs[k..], pcurrent, pp, true)
        invariant Pick(ids, flags, procs, pcurrent, pp, false)
               == if xp != null then xp else Pick(ids, flags, procs[k..], pcurrent, pp, false)
        decreases |procs| - k
      {
        HeldIn(k);
        HeldAt(np);
        assert procs[k..][0] == np && procs[k..][1..] == procs[k + 1..];
        LeadsIs(np);
        if np != pcurrent && np != pp && np.pid != 0 && np.pid == np.jobid {
          if np.flags.stopped {
            return np;
          }
          if xp == null {
            xp := np;
          }
        }
        np := np.next;
        k := k + 1;
      }
      r := xp;
    }

    lemma LeadsIs(p: Process)
      requires Held() && p in ids
      ensures Leads(ids, p) <==> p.pid != 0 && p.pid == p.jobid
    {
    }

    /** pclrcurr: whatever the current and previous job are, this one is not one of them. */
    method PClrCurr(pp: Process)
      requires Held() && Listing() && Current()
      modifies `pcurrent, `pprevious
      ensures (pcurrent, pprevious) == Cleared(ids, flags, procs, old(pcurrent), old(pprevious), pp)
      ensures Current() && pcurrent != pp && pprevious != pp
    {
      hide Held, Listing, GetCurr;
      FlagsOf();
      ClearedCurrents(ids, flags, procs, pcurrent, pprevious, pp);
      if pp == pcurrent {
        if pprevious != null {
          pcurrent := pprevious;
          pprevious := PGetCurr(pp);
        } else {
          pcurrent := PGetCurr(pp);
          pprevious := PGetCurr(pp);
        }
      } else if pp == pprevious {
        pprevious := PGetCurr(pp);
      }
    }

    lemma FlagsOf()
      requires Held() && Listing()
      ensures forall p :: p in procs ==> p in flags && p in ids && p in friends
    {
      forall p | p in procs ensures p in flags && p in ids && p in friends { assert p in Elems(procs); }
    }

    // ---- The largest index ----

    /** The loop of pflush over all processes. */
    method MaxIndex() returns (idx: nat)
      requires Held() && Listing()
      ensures MaxIs(ids, procs, idx)
    {
      hide Held, Listing;
      HeldHead();
      FlagsOf();
      var np := proclist.next;
      ghost var k := 0;
      idx := 0;
      while np != null
        invariant 0 <= k <= |procs| && np == Nth(procs, k)
        invariant forall i :: 0 <= i < k ==> ids[procs[i]].index <= idx
        invariant idx > 0 ==> exists p :: p in procs && p in ids && ids[p].index == idx
        decreases |procs| - k
      {
        HeldIn(k);
        HeldAt(np);
        if np.index > idx {
          idx := np.index;
        }
        np := np.next;
        k := k + 1;
      }
    }

    // ---- Going round a ring ----

    lemma FriendOf(r: seq<Process>, i: nat)
      requires Held() && Circle(friends, r) && i < |r|
      ensures r[i] in friends && r[i].friends == (if i + 1 < |r| then r[i + 1] else r[0]) && r[i] in ids && r[i] in flags
    {
      assert FriendAt(friends, r, i);
    }

    lemma InTable(p: Process)
      requires Held() && Listing() && Tabled() && p in procs
      ensures p in ids && p in flags && p in friends && p in ring && p in ring[p] && Circle(friends, ring[p])
      ensures ids[p] == Id(p.pid, p.jobid, p.index) && flags[p] == p.flags
      ensures forall m :: m in ring[p] ==> m in procs && m in ring && ring[m] == ring[p] && m in ids && m in flags
    {
      FlagsOf();
      JobIs(friends, ids, procs, ring, pmaxindex, p);
    }

    /** The loop to the leader of a job. */
    method Leader(pp: Process) returns (l: Process)
      requires Held() && Listing() && Tabled() && pp in procs && pp.pid > 0
      ensures l in procs && pp in ring && ring[pp] != [] && l == ring[pp][0] && l in ids && Leads(ids, l)
      ensures l in ring && ring[l] == ring[pp]
    {
      hide Held, Listing, Tabled, Leads, Circle;
      InTable(pp);
      ghost var r := ring[pp];
      ghost var k: nat :| k < |r| && r[k] == pp;
      l := pp;
      LeaderAt(pp, r, k);
      while l.pid != l.jobid
        invariant k < |r| && l == r[k]
        invariant l.pid != l.jobid <==> k != 0
        decreases if k == 0 then 0 else |r| - k
      {
        FriendOf(r, k);
        k := if k + 1 < |r| then k + 1 else 0;
        l := l.friends;
        LeaderAt(pp, r, k);
      }
      LeaderAt(pp, r, 0);
    }

    lemma LeaderAt(pp: Process, r: seq<Process>, k: nat)
      requires Held() && Listing() && Tabled() && pp in procs && pp.pid > 0 && pp in ring && r == ring[pp] && k < |r|
      ensures r[k].pid != r[k].jobid <==> k != 0
      ensures r[k] in procs && r[k] in ids && r[k] in ring && ring[r[k]] == r && (k == 0 ==> Leads(ids, r[k])) && r[k].pid > 0
    {
      InTable(pp);
      OneLeader(friends, ids, procs, ring, pmaxindex, pp, r[k]);
      assert r[k] in ids;
      HeldAt(r[k]);
      if k != 0 { assert Differ(r, 0, k); }
    }

    /** The flags of a job, together. */
    method FlagsTogether(pp: Process) returns (jf: Flags)
      requires Held() && Listing() && Tabled() && pp in procs
      ensures pp in ring && jf == JobFlags(flags, ring[pp])
    {
      hide Held, Listing, Tabled, Circle, Or;
      InTable(pp);
      ghost var r := ring[pp];
      ghost var k: nat :| k < |r| && r[k] == pp;
      ghost var w := r[k..] + r[..k];
      Turned(friends, r, k);
      JobFlagsTurned(flags, r, k);
      var fp := pp;
      jf := NONE;
      ghost var j: nat := 0;
      while true
        invariant j < |w| && fp == w[j] && jf == JobFlags(flags, w[..j])
        decreases |w| - j
      {
        FriendOf(w, j);
        HeldAt(fp);
        jf := Or(jf, fp.flags);
        assert w[..j + 1][..j] == w[..j];
        fp := fp.friends;
        j := j + 1;
        if fp == pp {
          AroundOnce(friends, w, j);
          break;
        }
      }
      assert w[..j] == w;
    }

    method ChangeOne(fp: Process, change: Flags -> Flags)
      requires Held() && fp in ids
      modifies `flags, fp`flags
      ensures fp in old(flags) && Held() && flags == old(flags)[fp := change(old(flags)[fp])]
    {
      hide Held;
      HeldAt(fp);
      PutFlags(fp, change(fp.flags));
    }

    /** A loop round a ring that changes the flags of each. */
    method ChangeFlags(pp: Process, change: Flags -> Flags)
      requires Held() && Listing() && Tabled() && pp in procs
      modifies `flags, flags.Keys`flags
      ensures Held() && pp in ring && flags == Changed(old(flags), ring[pp], change) && flags.Keys == old(flags.Keys)
    {
      hide Held, Listing, Tabled, Circle, Changed;
      InTable(pp);
      ghost var r := ring[pp];
      ghost var k: nat :| k < |r| && r[k] == pp;
      ghost var w := r[k..] + r[..k];
      Turned(friends, r, k);
      ChangedSame(flags, w, r, change);
      ChangedNone(flags, change);
      var fp := pp;
      ghost var j: nat := 0;
      assert w[..0] == [];
      while true
        invariant j < |w| && fp == w[j] && Held() && Circle(friends, w)
        invariant flags == Changed(old(flags), w[..j], change) && flags.Keys == old(flags.Keys)
        decreases |w| - j
      {
        ChangeNext(fp, w, j, old(flags), change);
        fp := fp.friends;
        j := j + 1;
        if fp == pp {
          AroundOnce(friends, w, j);
          break;
        }
      }
      assert w[..j] == w;
    }

    method ChangeNext(fp: Process, ghost w: seq<Process>, ghost j: nat, ghost flags0: map<Process, Flags>, change: Flags -> Flags)
      requires j < |w| && fp == w[j] && Held() && Circle(friends, w) && NoDup(w)
      requires flags == Changed(flags0, w[..j], change) && flags.Keys == flags0.Keys
      modifies `flags, fp`flags
      ensures Held() && flags == Changed(flags0, w[..j + 1], change) && flags.Keys == flags0.Keys
      ensures fp in flags && fp.friends == if j + 1 < |w| then w[j + 1] else w[0]
    {
      hide Held, Circle, Changed, NoDup;
      FriendOf(w, j);
      ChangedStep(flags0, w, j, change);
      ChangeOne(fp, change);
    }

    // ---- pflush ----

    method FlushOne(np: Process)
      requires Held() && np in ids
      modifies `flags, `ids, np`flags, np`index, np`pid
      ensures np in old(flags) && Held() && ids == old(ids)[np := Id(0, old(ids)[np].jobid, 0)]
      ensures flags == old(flags)[np := Unnote(old(flags)[np])]
    {
      hide Held;
      HeldAt(np);
      PutIndex(np, 0);
      PutPid(np, 0);
      PutFlags(np, Unnote(np.flags));
      assert old(ids)[np := old(ids)[np].(index := 0)][np := ids[np]] == old(ids)[np := ids[np]];
    }

    /** The loop of pflush. */
    method FlushRing(pp: Process)
      requires Held() && Listing() && Tabled() && pp in procs && pp in ring && ring[pp] != [] && pp == ring[pp][0]
      modifies `flags, `ids, flags.Keys`flags, ids.Keys`index, ids.Keys`pid
      ensures Held() && ids == Flushed(old(ids), ring[pp]) && flags == Changed(old(flags), ring[pp], Unnote)
      ensures ids.Keys == old(ids.Keys) && flags.Keys == old(flags.Keys)
    {
      hide Held, Listing, Tabled, Circle, Changed, Flushed;
      InTable(pp);
      ghost var r := ring[pp];
      ChangedNone(flags, Unnote);
      FlushedNone(ids);
      var np := pp;
      ghost var j: nat := 0;
      assert r[..0] == [];
      while true
        invariant j < |r| && np == r[j] && Held() && Circle(friends, r)
        invariant flags == Changed(old(flags), r[..j], Unnote) && flags.Keys == old(flags.Keys)
        invariant ids == Flushed(old(ids), r[..j]) && ids.Keys == old(ids.Keys)
        decreases |r| - j
      {
        FriendOf(r, j);
        HeldAt(np);
        ChangedStep(old(flags), r, j, Unnote);
        FlushedStep(old(ids), r, j);
        FlushOne(np);
        np := np.friends;
        j := j + 1;
        if np == pp {
          AroundOnce(friends, r, j);
          break;
        }
      }
      assert r[..j] == r;
    }

    /** pflush: the job a process is of, if it is not flushed yet, is out of the table from now on. */
    method PFlush(pp: Process)
      requires Valid() && pp in procs
      modifies `pcurrent, `pprevious, `pcurrjob, `pmaxindex, `flags, `ids, flags.Keys`flags, ids.Keys`index, ids.Keys`pid
      ensures Valid() && pp in ring && ids.Keys == old(ids.Keys) && flags.Keys == old(flags.Keys)
      ensures Now() == AfterFlush(old(Now()), pp)
    {
      hide Valid, Changed, Flushed, Cleared, Circle, Leads;
      InRing(pp);
      InValid(pp);
      if pp.pid == 0 {
        return;
      }
      var lead := LeaderOf(pp);
      Unpoint(lead);
      FlushJob(lead);
    }

    lemma InRing(p: Process)
      requires Valid() && p in procs
      ensures p in ring
    {
      hide Held, Listed, Elems, Jobs.Table, Currents, States;
      InTable(p);
    }

    /** A job is none of the current ones, nor that being made up. */
    method Unpoint(lead: Process)
      requires Valid() && lead in procs && lead in ids && Leads(ids, lead)
      modifies `pcurrent, `pprevious, `pcurrjob
      ensures Valid() && pcurrent != lead && pprevious != lead && pcurrjob != lead
      ensures (pcurrent, pprevious) == Cleared(ids, flags, procs, old(pcurrent), old(pprevious), lead)
      ensures pcurrjob == if old(pcurrjob) == lead then null else old(pcurrjob)
    {
      hide Held, Listed, Elems, Jobs.Table, States, Currents, Cleared;
      PClrCurr(lead);
      if lead == pcurrjob {
        pcurrjob := null;
      }
    }

    /** The rest of pflush, once the leader of the job is none of the current ones. */
    method FlushJob(lead: Process)
      requires Valid() && lead in procs && Leads(ids, lead) && lead in ring && ring[lead] != [] && lead == ring[lead][0]
      requires pcurrent != lead && pprevious != lead && pcurrjob != lead
      modifies `pmaxindex, `flags, `ids, flags.Keys`flags, ids.Keys`index, ids.Keys`pid
      ensures Valid() && ids == Flushed(old(ids), ring[lead]) && flags == Changed(old(flags), ring[lead], Unnote)
      ensures ids.Keys == old(ids.Keys) && flags.Keys == old(flags.Keys)
    {
      hide Held, Jobs.Table, Currents, States, Listed, Elems, Changed, Flushed, Circle, Leads, MaxIs;
      ghost var max := pmaxindex;
      InTable(lead);
      var idx := lead.index;
      FlushRing(lead);
      if idx == pmaxindex {
        pmaxindex := MaxIndex();
      }
      FlushDone(old(ids), old(flags), max, lead);
    }

    lemma FlushDone(ids0: Ids, flags0: map<Process, Flags>, max: nat, p: Process)
      requires Held() && Listing() && Jobs.Table(friends, ids0, procs, ring, max) && States(flags0, ids0, procs)
      requires p in procs && Leads(ids0, p) && p in ring && ring[p] != [] && p == ring[p][0]
      requires ids == Flushed(ids0, ring[p]) && flags == Changed(flags0, ring[p], Unnote)
      requires Currents(ids0, procs, pcurrent, pprevious) && pcurrent != p && pprevious != p
      requires pcurrjob != null ==> pcurrjob in procs && Leads(ids0, pcurrjob) && pcurrjob != p
      requires ids.Keys == Elems(procs)
      requires if ids0[p].index == max then MaxIs(ids, procs, pmaxindex) else pmaxindex == max
      ensures Valid()
    {
      hide Flushed, Changed, Held, Listed, Elems, JobsOf, Distinct, MaxIs, States, Leads, NoDup;
      IsLive(ids0, p);
      FlushedTable(friends, ids0, procs, ring, max, p);
      FlushedRest(friends, ids0, procs, ring, max, flags0, p);
    }

    static lemma IsLive(ids: Ids, p: Process)
      requires Leads(ids, p)
      ensures p in ids && ids[p].pid > 0
    {
    }

    // ---- palloc ----

    ghost method GrowPointers(pp: Process)
      requires NextsHeld() && FriendsHeld() && pp.next == null && pp.friends == null
      modifies `nexts, `friends
      ensures NextsHeld() && FriendsHeld() && nexts == old(nexts)[pp := null] && friends == old(friends)[pp := null]
    {
      nexts := nexts[pp := null];
      friends := friends[pp := null];
    }

    ghost method GrowNumbers(pp: Process)
      requires IdsHeld() && FlagsHeld()
      modifies `ids, `flags
      ensures IdsHeld() && FlagsHeld() && ids == old(ids)[pp := Id(pp.pid, pp.jobid, pp.index)] && flags == old(flags)[pp := pp.flags]
    {
      ids := ids[pp := Id(pp.pid, pp.jobid, pp.index)];
      flags := flags[pp := pp.flags];
    }

    /** A process record on its own, in the tables but not yet in the list. */
    method NewProcess(pid: nat, f: Flags) returns (pp: Process)
      requires Held()
      modifies `nexts, `friends, `ids, `flags
      ensures Held() && fresh(pp) && pp !in old(nexts)
      ensures nexts == old(nexts)[pp := null] && friends == old(friends)[pp := null]
      ensures ids == old(ids)[pp := Id(pid, 0, 0)] && flags == old(flags)[pp := f]
    {
      hide Keyed, NextsHeld, FriendsHeld, IdsHeld, FlagsHeld;
      pp := new Process(pid, f);
      KeyedMore(nexts, friends, ids, flags, proclist, pp, Id(pid, 0, 0), f);
      GrowPointers(pp);
      GrowNumbers(pp);
    }

    /** Whether an index is in use: the inner loop of the search in palloc. */
    method InUse(i: nat) returns (used: bool)
      requires Held() && Listing() && i > 0
      ensures used <==> Used(ids, procs, i)
    {
      hide Held, Listing;
      HeldHead();
      FlagsOf();
      var np := proclist.next;
      ghost var k: nat := 0;
      while np != null
        invariant k <= |procs| && np == Nth(procs, k)
        invariant forall j :: 0 <= j < k ==> ids[procs[j]].index != i
        decreases |procs| - k
      {
        HeldIn(k);
        HeldAt(np);
        if np.index == i {
          return true;
        }
        np := np.next;
        k := k + 1;
      }
      used := false;
    }

    static lemma NoneAbove(ids: Ids, procs: seq<Process>, max: nat)
      requires MaxIs(ids, procs, max)
      ensures !Used(ids, procs, max + 1)
    {
    }

    /** The index of a new job: one more than the largest, while that is small; then the least not in
        use. It is never more than the larger of 9 and one more than the number of jobs. */
    method NewIndex() returns (i: nat)
      requires Held() && Listing() && Tabled()
      modifies `pmaxindex
      ensures NewIs(ids, procs, old(pmaxindex), i) && i > 0 && !Used(ids, procs, i)
      ensures pmaxindex == Max(i, old(pmaxindex))
      ensures i <= Max(BIGINDEX, |Leaders(ids, procs)| + 1)
    {
      hide Held, Listing, Used;
      if pmaxindex < BIGINDEX {
        NoneAbove(ids, procs, pmaxindex);
        pmaxindex := pmaxindex + 1;
        i := pmaxindex;
      } else {
        i := 1;
        while true
          invariant i > 0 && pmaxindex == old(pmaxindex)
          invariant forall j :: 0 < j < i ==> Used(ids, procs, j)
          decreases |Leaders(ids, procs)| + 1 - i
        {
          AllUsed(friends, ids, procs, ring, pmaxindex, i);
          var used := InUse(i);
          if !used {
            break;
          }
          AllUsed(friends, ids, procs, ring, pmaxindex, i + 1);
          i := i + 1;
        }
        if i > pmaxindex {
          pmaxindex := i;
        }
      }
    }

    method JoinNumbers(pp: Process, leader: Process)
      requires Held() && pp in ids && leader in ids && leader != pp
      modifies `ids, pp`index, pp`jobid
      ensures Held() && ids == old(ids)[pp := Id(old(ids)[pp].pid, old(ids)[leader].pid, old(ids)[leader].index)]
    {
      hide Held;
      HeldAt(pp);
      HeldAt(leader);
      PutIndex(pp, leader.index);
      PutJobid(pp, leader.pid);
      assert old(ids)[pp := old(ids)[pp].(index := leader.index)][pp := ids[pp]] == old(ids)[pp := ids[pp]];
    }

    /** A process of a job that has others: the next friend after the last of them. */
    method JoinJob(pp: Process, leader: Process, pid: nat, ghost r: seq<Process>, ghost ids0: Ids)
      requires Held() && pp in ids && leader in ids && leader != pp && Circle(friends, r) && r[0] == leader && pp !in r
      requires pp !in ids0 && ids == ids0[pp := Id(pid, 0, 0)]
      modifies `friends, `ids, friends.Keys`friends, pp`index, pp`jobid
      ensures r != [] && Held() && friends == old(friends)[r[|r| - 1] := pp][pp := leader]
      ensures leader in ids0 && ids == ids0[pp := Id(pid, ids0[leader].pid, ids0[leader].index)]
    {
      hide Held, Circle;
      HeldAt(pp);
      HeldAt(leader);
      CircleNotEmpty(friends, r);
      JoinNumbers(pp, leader);
      assert ids0[pp := Id(pid, 0, 0)][pp := ids[pp]] == ids0[pp := ids[pp]];
      PutFriend(pp, leader);
      CircleGrown(old(friends), r, pp, leader);
      var fp := LastFriend(leader, r);
      PutFriend(fp, pp);
      FriendsSwapped(old(friends), r[|r| - 1], pp, leader);
    }

    static lemma FriendsSwapped(fr: Ptrs, last: Process, pp: Process, leader: Process)
      requires last != pp
      ensures fr[pp := leader][last := pp] == fr[last := pp][pp := leader]
    {
    }

    /** The last of a job: the one whose friend is the leader. */
    method LastFriend(leader: Process, ghost r: seq<Process>) returns (fp: Process)
      requires Held() && Circle(friends, r) && r[0] == leader
      ensures r != [] && fp == r[|r| - 1] && fp in ids && fp in friends
    {
      hide Held, Circle;
      ghost var k: nat := 0;
      fp := leader;
      CircleNotEmpty(friends, r);
      FriendOf(r, 0);
      while fp.friends != leader
        invariant k < |r| && fp == r[k] && fp.friends == (if k + 1 < |r| then r[k + 1] else r[0])
        decreases |r| - k
      {
        fp := fp.friends;
        k := k + 1;
        FriendOf(r, k);
      }
      if k + 1 < |r| { AroundOnce(friends, r, k + 1); }
      FriendOf(r, k);
    }

    static lemma CircleNotEmpty(fr: Ptrs, r: seq<Process>)
      requires Circle(fr, r)
      ensures r != []
    {
    }

    /** A process that is a job of its own. */
    method StartJob(pp: Process, pid: nat) returns (i: nat)
      requires Held() && Listing() && Tabled() && pp in ids && pp !in procs && ids[pp] == Id(pid, 0, 0)
      modifies `friends, `ids, pp`friends, pp`index, pp`jobid, `pmaxindex
      ensures Held() && i > 0 && friends == old(friends)[pp := pp] && ids == old(ids)[pp := Id(pid, pid, i)]
      ensures !Used(old(ids), procs, i) && i <= Max(BIGINDEX, |Leaders(old(ids), procs)| + 1)
      ensures pmaxindex == Max(i, old(pmaxindex)) && NewIs(old(ids), procs, old(pmaxindex), i)
    {
      hide Held, Listing, Tabled, Used, Leaders, NewIs;
      i := NewIndex();
      PutJobid(pp, pid);
      PutFriend(pp, pp);
      PutIndex(pp, i);
      assert old(ids)[pp := Id(pid, pid, 0)][pp := Id(pid, pid, i)] == old(ids)[pp := Id(pid, pid, i)];
    }

    /** The table as it was when a new record was made. */
    static ghost predicate Prior(nx0: Ptrs, fr0: Ptrs, ids0: Ids, flags0: map<Process, Flags>, procs0: seq<Process>, ring0: RingOf,
                                 max0: nat, cur0: Process?, prev0: Process?, job0: Process?, head: Process, pp: Process, pid: nat)
    {
      && pid > 0 && pp !in nx0 && pp !in ids0 && pp !in procs0 && head !in procs0 && pp != head
      && Listed(nx0, head, procs0) && Jobs.Table(fr0, ids0, procs0, ring0, max0)
      && Currents(ids0, procs0, cur0, prev0) && States(flags0, ids0, procs0) && ids0.Keys == Elems(procs0)
      && (forall p :: p in procs0 ==> p in ids0 && ids0[p].pid != pid)
      && (job0 != null ==> job0 in procs0 && Leads(ids0, job0))
    }

    ghost predicate Was(nx0: Ptrs, fr0: Ptrs, ids0: Ids, flags0: map<Process, Flags>, pp: Process, pid: nat)
      reads this
    {
      && pp in flags && nexts == nx0[pp := null] && friends == fr0[pp := null] && ids == ids0[pp := Id(pid, 0, 0)]
      && flags == flags0[pp := flags[pp]] && OneState(flags[pp])
      && Prior(nx0, fr0, ids0, flags0, procs, ring, pmaxindex, pcurrent, pprevious, pcurrjob, proclist, pp, pid)
    }

    /** Putting a record in front of the list. */
    method Prepend(pp: Process)
      requires Held() && pp in nexts && proclist in nexts && pp != proclist
      modifies `nexts, `procs, pp`next, proclist`next
      ensures Held() && nexts == old(nexts)[pp := old(nexts)[proclist]][proclist := pp] && procs == [pp] + old(procs)
    {
      hide Held;
      HeldAt(proclist);
      PutNext(pp, proclist.next);
      PutNext(proclist, pp);
      procs := [pp] + procs;
    }

    method Link(pp: Process, leader: Process, pid: nat, ghost r: seq<Process>, ghost ids0: Ids)
      requires Held() && pp in ids && leader in ids && leader != pp && Circle(friends, r) && r[0] == leader && pp !in r
      requires pp !in ids0 && ids == ids0[pp := Id(pid, 0, 0)] && pp in nexts && proclist in nexts && pp != proclist
      modifies `nexts, `procs, `friends, `ids, friends.Keys`friends, pp`index, pp`jobid, pp`next, proclist`next
      ensures r != [] && Held() && friends == old(friends)[r[|r| - 1] := pp][pp := leader]
      ensures leader in ids0 && ids == ids0[pp := Id(pid, ids0[leader].pid, ids0[leader].index)]
      ensures nexts == old(nexts)[pp := old(nexts)[proclist]][proclist := pp] && procs == [pp] + old(procs)
    {
      hide Held, Circle;
      CircleNotEmpty(friends, r);
      JoinJob(pp, leader, pid, r, ids0);
      Prepend(pp);
    }

    method AllocFriend(pp: Process, pid: nat, ghost nx0: Ptrs, ghost fr0: Ptrs, ghost ids0: Ids, ghost flags0: map<Process, Flags>)
      requires Held() && Was(nx0, fr0, ids0, flags0, pp, pid) && pcurrjob != null
      modifies `nexts, `procs, `friends, `ids, `ring, friends.Keys`friends, pp`index, pp`jobid, pp`next, proclist`next
      ensures Valid() && procs == [pp] + old(procs) && pcurrjob in ids0
      ensures ids == ids0[pp := Id(pid, ids0[pcurrjob].pid, ids0[pcurrjob].index)]
      ensures pcurrjob in old(ring) && ring == Joined(old(ring), old(ring)[pcurrjob], pp)
    {
      hide Held, Prior, Circle, Leads, OneState;
      var leader: Process := pcurrjob;
      PriorFriend(nx0, fr0, ids0, flags0, pp, pid);
      ghost var r := ring[leader];
      Link(pp, leader, pid, r, ids0);
      ring := Joined(ring, r, pp);
      FriendAllocated(nx0, fr0, ids0, flags0, old(procs), old(ring), pp, pid);
    }

    lemma PriorFriend(nx0: Ptrs, fr0: Ptrs, ids0: Ids, flags0: map<Process, Flags>, pp: Process, pid: nat)
      requires Was(nx0, fr0, ids0, flags0, pp, pid) && pcurrjob != null
      ensures pcurrjob in ring && Circle(friends, ring[pcurrjob]) && ring[pcurrjob] != [] && ring[pcurrjob][0] == pcurrjob
      ensures pp !in ring[pcurrjob] && proclist in nexts && proclist in nx0 && pp !in ids0 && pcurrjob in ids0 && pcurrjob != pp && pp != proclist
      ensures pp in nexts && pp in ids && pcurrjob in ids && nexts[proclist] == nx0[proclist]
    {
      hide Jobs.Table, Currents, States, Listed, Elems, Circle, OneState;
      RingLed(fr0, ids0, procs, ring, pmaxindex, pcurrjob, pp);
      CircleGrown(fr0, ring[pcurrjob], pp, null);
      ListedIn(nx0, proclist, procs);
    }

    lemma FriendAllocated(nx0: Ptrs, fr0: Ptrs, ids0: Ids, flags0: map<Process, Flags>, procs0: seq<Process>, ring0: RingOf,
                          pp: Process, pid: nat)
      requires Held() && pcurrjob != null
      requires Prior(nx0, fr0, ids0, flags0, procs0, ring0, pmaxindex, pcurrent, pprevious, pcurrjob, proclist, pp, pid)
      requires proclist in nx0 && nexts == nx0[pp := null][pp := nx0[proclist]][proclist := pp] && procs == [pp] + procs0
      requires pp in flags && flags == flags0[pp := flags[pp]] && OneState(flags[pp])
      requires pcurrjob in ids0 && ids == ids0[pp := Id(pid, ids0[pcurrjob].pid, ids0[pcurrjob].index)]
      requires pcurrjob in ring0 && ring0[pcurrjob] != [] && ring == Joined(ring0, ring0[pcurrjob], pp)
      requires friends == fr0[pp := null][ring0[pcurrjob][|ring0[pcurrjob]| - 1] := pp][pp := pcurrjob]
      ensures Valid()
    {
      hide Held, Jobs.Table, Currents, States, Listed, OneState, Joined, Elems;
      var leader: Process := pcurrjob;
      var r := ring0[leader];
      NewFriend(fr0, ids0, procs0, ring0, pmaxindex, pp, pid, leader);
      assert fr0[pp := null][r[|r| - 1] := pp][pp := leader] == fr0[r[|r| - 1] := pp][pp := leader];
      CurrentsGrown(ids0, procs0, pcurrent, pprevious, pp, ids[pp]);
      Grown(nx0, flags0, ids0, procs0, pp);
    }

    /** What a new record in front of the list leaves as it was. */
    lemma Grown(nx0: Ptrs, flags0: map<Process, Flags>, ids0: Ids, procs0: seq<Process>, pp: Process)
      requires pp !in nx0 && proclist in nx0 && pp !in procs0 && proclist !in procs0 && Listed(nx0, proclist, procs0)
      requires nexts == nx0[pp := null][pp := nx0[proclist]][proclist := pp] && procs == [pp] + procs0
      requires pp in flags && flags == flags0[pp := flags[pp]] && OneState(flags[pp]) && States(flags0, ids0, procs0)
      requires pp in ids && ids == ids0[pp := ids[pp]] && ids[pp].pid > 0 && ids0.Keys == Elems(procs0)
      ensures Listing() && Stated() && ids.Keys == Elems(procs)
    {
      hide Listed, States, OneState;
      ListedMore(nx0, proclist, procs0, pp);
      assert nx0[pp := null][pp := nx0[proclist]][proclist := pp] == nx0[pp := nx0[proclist]][proclist := pp];
      StatesGrown(flags0, ids0, procs0, pp, flags[pp], ids[pp]);
      assert Elems([pp] + procs0) == Elems(procs0) + {pp};
    }

    static lemma RingLed(fr: Ptrs, ids: Ids, procs: seq<Process>, ring: RingOf, max: nat, leader: Process, pp: Process)
      requires Jobs.Table(fr, ids, procs, ring, max) && leader in procs && Leads(ids, leader) && pp !in procs
      ensures leader in ring && Circle(fr, ring[leader]) && ring[leader] != [] && ring[leader][0] == leader && pp !in ring[leader]
    {
      JobIs(fr, ids, procs, ring, max, leader);
      OneLeader(fr, ids, procs, ring, max, leader, leader);
    }

    method LinkNew(pp: Process, pid: nat) returns (i: nat)
      requires Held() && Listing() && Tabled() && pp in ids && pp !in procs && ids[pp] == Id(pid, 0, 0)
      requires pp in nexts && proclist in nexts && pp != proclist
      modifies `nexts, `procs, `friends, `ids, `pmaxindex, pp`friends, pp`index, pp`jobid, pp`next, proclist`next
      ensures Held() && i > 0 && friends == old(friends)[pp := pp] && ids == old(ids)[pp := Id(pid, pid, i)]
      ensures nexts == old(nexts)[pp := old(nexts)[proclist]][proclist := pp] && procs == [pp] + old(procs)
      ensures !Used(old(ids), old(procs), i) && i <= Max(BIGINDEX, |Leaders(old(ids), old(procs))| + 1)
      ensures pmaxindex == Max(i, old(pmaxindex)) && NewIs(old(ids), old(procs), old(pmaxindex), i)
    {
      hide Held, Listing, Tabled, Used, Leaders, NewIs;
      i := StartJob(pp, pid);
      Prepend(pp);
    }

    method AllocJob(pp: Process, pid: nat, ghost nx0: Ptrs, ghost fr0: Ptrs, ghost ids0: Ids, ghost flags0: map<Process, Flags>)
        returns (i: nat)
      requires Held() && Was(nx0, fr0, ids0, flags0, pp, pid) && pcurrjob == null
      modifies `nexts, `procs, `friends, `ids, `ring, `pmaxindex, `pcurrent, `pprevious, `pcurrjob
      modifies pp`friends, pp`index, pp`jobid, pp`next, proclist`next
      ensures Valid() && procs == [pp] + old(procs) && pcurrjob == pp
      ensures ids == ids0[pp := Id(pid, pid, i)]
      ensures !Used(ids0, old(procs), i) && 0 < i <= Max(BIGINDEX, |Leaders(ids0, old(procs))| + 1)
      ensures NewIs(ids0, old(procs), old(pmaxindex), i) && ring == old(ring)[pp := [pp]]
      ensures (pcurrent, pprevious) == WithNew(old(pcurrent), old(pprevious), pp)
    {
      hide Held, Prior, Listing, Tabled, OneState, Used, Leaders, NewIs;
      PriorJob(nx0, fr0, ids0, flags0, pp, pid);
      PointTo(pp);
      SameUsed(ids, ids0, procs, pmaxindex);
      i := LinkNew(pp, pid);
      ring := ring[pp := [pp]];
      JobAllocated(nx0, fr0, ids0, flags0, old(procs), old(ring), old(pmaxindex), old(pcurrent), old(pprevious), pp, pid, i);
    }

    static lemma SameUsed(ids: Ids, ids0: Ids, procs: seq<Process>, max: nat)
      requires forall i :: Used(ids, procs, i) <==> Used(ids0, procs, i)
      ensures forall i :: NewIs(ids, procs, max, i) <==> NewIs(ids0, procs, max, i)
    {
      hide Used;
    }

    /** A new job is that being made up, and takes a place among the current ones if there is one. */
    method PointTo(pp: Process)
      modifies `pcurrent, `pprevious, `pcurrjob
      ensures pcurrjob == pp && (pcurrent, pprevious) == WithNew(old(pcurrent), old(pprevious), pp)
    {
      pcurrjob := pp;
      if pcurrent == null {
        pcurrent := pp;
      } else if pprevious == null {
        pprevious := pp;
      }
    }

    lemma PriorJob(nx0: Ptrs, fr0: Ptrs, ids0: Ids, flags0: map<Process, Flags>, pp: Process, pid: nat)
      requires Was(nx0, fr0, ids0, flags0, pp, pid)
      ensures Listing() && Tabled() && pp in nexts && proclist in nexts && proclist in nx0 && pp != proclist && pp !in procs
      ensures nexts[proclist] == nx0[proclist] && pp in ids && ids[pp] == Id(pid, 0, 0)
      ensures forall i :: Used(ids, procs, i) <==> Used(ids0, procs, i)
      ensures Leaders(ids, procs) == Leaders(ids0, procs)
    {
      hide Held, Jobs.Table, Currents, States, Listed, Elems, Leads, OneState, Used, Leaders;
      ListedIn(nx0, proclist, procs);
      TableGrown(fr0, ids0, procs, ring, pmaxindex, pp, null, Id(pid, 0, 0));
      ListingGrown(nx0, ids0, pp);
      UsedGrown(ids0, procs, pp, Id(pid, 0, 0));
    }

    lemma ListingGrown(nx0: Ptrs, ids0: Ids, pp: Process)
      requires Listed(nx0, proclist, procs) && ids0.Keys == Elems(procs) && pp !in ids0 && pp !in procs && pp != proclist
      requires nexts == nx0[pp := null] && pp in ids && ids == ids0[pp := ids[pp]]
      ensures Listing()
    {
      ListedFrame(nx0, nexts, proclist, procs);
    }

    static lemma UsedGrown(ids: Ids, procs: seq<Process>, pp: Process, id: Id)
      requires pp !in procs
      ensures forall i :: Used(ids[pp := id], procs, i) <==> Used(ids, procs, i)
    {
      forall i ensures Used(ids[pp := id], procs, i) <==> Used(ids, procs, i) {
        if Used(ids, procs, i) {
          var p: Process :| p in procs && p in ids && ids[p].index == i;
          assert ids[pp := id][p].index == i;
        }
        if Used(ids[pp := id], procs, i) {
          var p: Process :| p in procs && p in ids[pp := id] && ids[pp := id][p].index == i;
          assert ids[p].index == i;
        }
      }
    }

    static lemma NoneUses(ids: Ids, procs: seq<Process>, i: nat)
      requires !Used(ids, procs, i) && ids.Keys == Elems(procs)
      ensures forall p :: p in procs ==> p in ids && ids[p].index != i
    {
      forall p | p in procs ensures p in ids && ids[p].index != i { assert p in Elems(procs); }
    }

    lemma JobAllocated(nx0: Ptrs, fr0: Ptrs, ids0: Ids, flags0: map<Process, Flags>, procs0: seq<Process>, ring0: RingOf,
                       max0: nat, cur0: Process?, prev0: Process?, pp: Process, pid: nat, i: nat)
      requires Held() && pcurrjob == pp && i > 0 && !Used(ids0, procs0, i)
      requires Prior(nx0, fr0, ids0, flags0, procs0, ring0, max0, cur0, prev0, null, proclist, pp, pid)
      requires proclist in nx0 && nexts == nx0[pp := null][pp := nx0[proclist]][proclist := pp] && procs == [pp] + procs0
      requires pp in flags && flags == flags0[pp := flags[pp]] && OneState(flags[pp])
      requires ids == ids0[pp := Id(pid, 0, 0)][pp := Id(pid, pid, i)] && friends == fr0[pp := null][pp := pp]
      requires ring == ring0[pp := [pp]] && pmaxindex == Max(i, max0)
      requires (pcurrent, pprevious) == WithNew(cur0, prev0, pp)
      ensures Valid() && ids == ids0[pp := Id(pid, pid, i)]
    {
      hide Held, Jobs.Table, Currents, States, Listed, OneState, Elems, Used;
      NoneUses(ids0, procs0, i);
      NewJob(fr0, ids0, procs0, ring0, max0, pp, pid, i);
      assert fr0[pp := null][pp := pp] == fr0[pp := pp];
      assert ids == ids0[pp := Id(pid, pid, i)];
      CurrentsGrown(ids0, procs0, cur0, prev0, pp, ids[pp]);
      Grown(nx0, flags0, ids0, procs0, pp);
    }

    /** palloc: a record for a process that was forked, in front of the others: of the job that is being
        made up, or the first of a new one. */
    method PAlloc(pid: nat, amp: bool) returns (pp: Process)
      requires Valid() && pid > 0 && forall p :: p in procs ==> p.pid != pid
      modifies this, friends.Keys`friends, proclist`next
      ensures Valid() && fresh(pp) && procs == [pp] + old(procs) && Forked(old(Now()), pid, amp, Now())
      ensures old(pcurrjob) == null ==> pp in ids && ids[pp].index <= Max(BIGINDEX, |Leaders(old(ids), old(procs))| + 1)
    {
      hide Valid, Held, Leads, Used, Leaders, NewIs, MaxIs, Was, Forked, Joined, WithNew;
      MaxNow();
      ghost var s, max := Now(), pmaxindex;
      ghost var nx0, fr0, ids0, flags0 := nexts, friends, ids, flags;
      pp := MakeRecord(pid, NONE.(running := true, foregnd := !amp));
      if pcurrjob != null {
        AllocFriend(pp, pid, nx0, fr0, ids0, flags0);
        FriendForked(s, pid, amp, Now(), pp);
      } else {
        var i := AllocJob(pp, pid, nx0, fr0, ids0, flags0);
        JobForked(s, pid, amp, Now(), pp, i, max);
      }
    }

    /** A new record, and the table as it was. */
    method MakeRecord(pid: nat, f: Flags) returns (pp: Process)
      requires Valid() && pid > 0 && OneState(f) && forall p :: p in procs ==> p.pid != pid
      modifies `nexts, `friends, `ids, `flags
      ensures Held() && fresh(pp) && pp !in old(friends) && pp !in old(ids) && flags == old(flags)[pp := f]
      ensures Was(old(nexts), old(friends), old(ids), old(flags), pp, pid)
      ensures friends.Keys == old(friends.Keys) + {pp}
    {
      hide Held, Jobs.Table, Currents, States, Listed, Elems, Leads;
      PidFresh(pid);
      KeysOf();
      pp := NewProcess(pid, f);
    }

    lemma KeysOf()
      requires Held()
      ensures nexts.Keys == ids.Keys + {proclist} && friends.Keys == ids.Keys
    {
    }

    lemma MaxNow()
      requires Valid()
      ensures MaxIs(ids, procs, pmaxindex) && proclist in nexts
    {
      hide Listed, Elems, Currents, States, JobsOf, Distinct, MaxIs;
    }

    lemma PidFresh(pid: nat)
      requires Held() && Listing() && ids.Keys == Elems(procs) && forall p :: p in procs ==> p.pid != pid
      ensures forall p :: p in procs ==> p in ids && ids[p].pid != pid
      ensures forall p :: p !in nexts ==> p !in procs && p !in ids && p != proclist
      ensures proclist !in procs
    {
      FlagsOf();
      assert proclist in procs ==> proclist in Elems(procs);
    }

    // ---- pchild ----

    /** The process with a pid. */
    method Find(pid: nat) returns (pp: Process?)
      requires Valid() && pid > 0
      ensures pp == null ==> forall p :: p in procs ==> p.pid != pid
      ensures pp != null ==> pp in procs && pp in ids && pp.pid == pid && forall p :: p in procs && p.pid == pid ==> p == pp
    {
      hide Held, Listed, Elems, Jobs.Table, Currents, States;
      HeldHead();
      pp := proclist.next;
      ghost var k: nat := 0;
      while pp != null
        invariant k <= |procs| && pp == Nth(procs, k)
        invariant forall i :: 0 <= i < k ==> procs[i].pid != pid
        decreases |procs| - k
      {
        HeldIn(k);
        if pp.pid == pid {
          forall p | p in procs && p.pid == pid ensures p == pp { SamePid(p, pp); }
          return;
        }
        pp := pp.next;
        k := k + 1;
      }
    }

    lemma SamePid(p: Process, q: Process)
      requires Valid() && p in procs && q in procs && p.pid == q.pid && p.pid > 0
      ensures p == q
    {
      FlagsOf();
      assert PidsDiffer(ids, p, q);
    }

    /** New flags for a process, in one state. */
    method Mark(pp: Process, f: Flags)
      requires Valid() && pp in procs && pp.pid > 0 && OneState(f)
      modifies `flags, pp`flags
      ensures Valid() && flags == old(flags)[pp := f]
    {
      hide Held, Listed, Elems, Jobs.Table, Currents, States, OneState;
      InTable(pp);
      StatesOne(flags, ids, procs, pp, f);
      PutFlags(pp, f);
    }

    /** New flags for a whole job. */
    method MarkAll(pp: Process, change: Flags -> Flags)
      requires Valid() && pp in procs && forall f :: Keeps(change, f)
      modifies `flags, flags.Keys`flags
      ensures Valid() && pp in ring && flags == Changed(old(flags), ring[pp], change) && flags.Keys == old(flags.Keys)
    {
      hide Held, Listed, Elems, Jobs.Table, Currents, States, OneState, Changed;
      InTable(pp);
      StatesChanged(flags, ids, procs, ring[pp], change);
      ChangeFlags(pp, change);
    }

    /** A job that has stopped is the current one. */
    method Stop(lead: Process)
      requires Valid() && lead in procs && lead in ids && Leads(ids, lead)
      modifies `pcurrent, `pprevious
      ensures Valid() && pcurrent == lead
      ensures pprevious == if old(pcurrent) != null && old(pcurrent) != lead then old(pcurrent) else old(pprevious)
    {
      hide Held, Listed, Elems, Jobs.Table, States, Currents, Leads;
      CurrentsStopped(ids, procs, pcurrent, pprevious, lead);
      if pcurrent != null && pcurrent != lead {
        pprevious := pcurrent;
      }
      pcurrent := lead;
    }

    method NotCurrent(lead: Process)
      requires Valid()
      modifies `pcurrent, `pprevious
      ensures Valid() && (pcurrent, pprevious) == Cleared(ids, flags, procs, old(pcurrent), old(pprevious), lead)
      ensures pcurrent != lead && pprevious != lead
    {
      hide Held, Listed, Elems, Jobs.Table, States, Currents, Cleared;
      PClrCurr(lead);
    }

    /** What pchild does with a process that wait has reported. */
    method Tell(pp: Process, why: Why, notify: bool)
      requires Valid() && pp in procs && pp.pid > 0 && (pp.flags.running || pp.flags.stopped)
      modifies `pcurrent, `pprevious, `pcurrjob, `pmaxindex, `flags, `ids, flags.Keys`flags, ids.Keys`index, ids.Keys`pid, pp`reason
      ensures Valid() && Now() == AfterChild(old(Now()), pp, why, notify)
    {
      hide Valid, Changed, Flushed, AfterSettled, Circle, JobFlags, After;
      InValid(pp);
      PutState(pp, why);
      var jf := Together(pp);
      RingNotEmpty(pp);
      ForegroundOff(pp);
      Overwritten(old(flags), flags, pp, After(old(flags)[pp], why));
      if !jf.running && !jf.reported {
        Settle(pp, jf, notify);
      }
    }

    lemma RingNotEmpty(p: Process)
      requires Valid() && p in procs
      ensures p in ring && ring[p] != []
    {
      hide Held, Listed, Elems, Currents, States;
      JobIs(friends, ids, procs, ring, pmaxindex, p);
    }

    static lemma Overwritten(flags0: map<Process, Flags>, flags1: map<Process, Flags>, p: Process, f: Flags)
      requires flags1 == flags0[p := f][p := f.(foregnd := false)]
      ensures flags1 == flags0[p := f.(foregnd := false)]
    {
    }

    lemma InValid(p: Process)
      requires Valid() && p in procs
      ensures p in ids && p in flags && p in friends && flags[p] == p.flags && ids[p] == Id(p.pid, p.jobid, p.index)
    {
      FlagsOf();
    }

    method PutState(pp: Process, why: Why)
      requires Valid() && pp in procs && pp.pid > 0 && (pp.flags.running || pp.flags.stopped)
      modifies `flags, pp`flags, pp`reason
      ensures Valid() && pp in old(flags) && flags == old(flags)[pp := After(old(flags)[pp], why)]
    {
      hide Held, Listed, Elems, Jobs.Table, Currents, OneState;
      InTable(pp);
      AfterOne(pp.flags, why);
      Mark(pp, After(pp.flags, why));
      match why {
        case Stopped(sig) => pp.reason := sig;
        case Signaled(sig, core) => pp.reason := sig;
        case Exited(code) => pp.reason := code;
      }
    }

    method Together(pp: Process) returns (jf: Flags)
      requires Valid() && pp in procs
      ensures pp in ring && jf == JobFlags(flags, ring[pp])
    {
      hide Held, Listed, Elems, Jobs.Table, Currents, States;
      jf := FlagsTogether(pp);
    }

    method ForegroundOff(pp: Process)
      requires Valid() && pp in procs && pp.pid > 0
      modifies `flags, pp`flags
      ensures Valid() && pp in old(flags) && flags == old(flags)[pp := old(flags)[pp].(foregnd := false)]
    {
      hide Held, Listed, Elems, Jobs.Table, Currents, OneOf;
      InTable(pp);
      Mark(pp, pp.flags.(foregnd := false));
    }

    method NeedNote(lead: Process)
      requires Valid() && lead in procs && lead.pid > 0
      modifies `flags, lead`flags
      ensures Valid() && lead in old(flags) && flags == old(flags)[lead := old(flags)[lead].(neednote := true)]
    {
      hide Held, Listed, Elems, Jobs.Table, Currents, OneOf;
      InTable(lead);
      Mark(lead, lead.flags.(neednote := true));
    }

    method Settle(pp: Process, jf: Flags, notify: bool)
      requires Valid() && pp in procs && pp.pid > 0
      modifies `pcurrent, `pprevious, `pcurrjob, `pmaxindex, `flags, `ids, flags.Keys`flags, ids.Keys`index, ids.Keys`pid
      ensures Valid() && pp in old(ring) && old(ring)[pp] != []
      ensures Now() == AfterSettled(old(Now()), pp, jf, notify)
    {
      hide Valid, Changed, Flushed, Circle, Leads, Cleared, Announced, Keeps, Report;
      InValid(pp);
      AlwaysKeeps();
      MarkAll(pp, Report);
      InValid(pp);
      var lead := LeaderOf(pp);
      if jf.stopped {
        Stop(lead);
      } else {
        NotCurrent(lead);
      }
      Announce(pp, lead, jf, notify);
    }

    static lemma AlwaysKeeps()
      ensures forall f :: Keeps(Report, f)
    {
      forall f ensures Keeps(Report, f) { ReportKeeps(f); }
    }

    /** The end of it: a job in the background is flushed, or needs a note. */
    method Announce(pp: Process, lead: Process, jf: Flags, notify: bool)
      requires Valid() && pp in procs && lead in procs && lead.pid > 0
      modifies `pcurrent, `pprevious, `pcurrjob, `pmaxindex, `flags, `ids, flags.Keys`flags, ids.Keys`index, ids.Keys`pid
      ensures Valid() && Now() == Announced(old(Now()), pp, lead, jf, notify)
    {
      hide Valid, AfterFlush;
      InValid(lead);
      if !jf.foregnd {
        if jf.notify || notify {
          if !jf.stopped {
            PFlush(pp);
          }
        } else {
          NeedNote(lead);
        }
      }
    }

    method LeaderOf(pp: Process) returns (l: Process)
      requires Valid() && pp in procs && pp.pid > 0
      ensures l in procs && pp in ring && ring[pp] != [] && l == ring[pp][0] && l in ids && Leads(ids, l) && l.pid > 0 && l in flags
      ensures l in ring && ring[l] == ring[pp]
    {
      hide Held, Listed, Elems, Jobs.Table, Currents, States;
      l := Leader(pp);
      InTable(l);
    }

    /** pchild, for what one wait reports: something of a process of the table, that runs or is stopped;
        or of another, which is ignored. */
    method PChild(pid: nat, why: Why, notify: bool) returns (pp: Process?)
      requires Valid() && pid > 0
      requires forall p :: p in procs && p.pid == pid ==> p.flags.running || p.flags.stopped
      modifies `pcurrent, `pprevious, `pcurrjob, `pmaxindex, `flags, `ids
      modifies flags.Keys`flags, ids.Keys`index, ids.Keys`pid, ids.Keys`reason
      ensures Valid() && procs == old(procs)
      ensures pp == null <==> forall p :: p in procs ==> old(p.pid) != pid
      ensures pp == null ==> Now() == old(Now())
      ensures pp != null ==> pp in procs && old(pp.pid) == pid && Now() == AfterChild(old(Now()), pp, why, notify)
    {
      hide Valid, AfterChild;
      pp := Find(pid);
      if pp != null {
        InValid(pp);
        Tell(pp, why, notify);
      }
    }

    // ---- pstart, pendjob, pfind ----

    /** pstart: a job goes on, in the foreground or in the background; in the background it is not the
        current or previous job any more. */
    method PStart(pp: Process, foregnd: bool)
      requires Valid() && pp in procs && pp in ids && Leads(ids, pp)
      modifies `flags, flags.Keys`flags, `pcurrent, `pprevious
      ensures Valid() && flags.Keys == old(flags.Keys) && Now() == AfterStart(old(Now()), pp, foregnd)
      ensures !foregnd ==> pcurrent != pp && pprevious != pp
    {
      hide Valid, Changed, Leads, Cleared, To;
      ToKeeps(foregnd);
      MarkAll(pp, To(foregnd));
      if !foregnd {
        NotCurrent(pp);
      }
    }

    /** pendjob: the next process is of another job. */
    method PEndJob()
      requires Valid()
      modifies `pcurrjob
      ensures Valid() && Now() == old(Now()).(job := null)
    {
      hide Held, Listed, Elems, Jobs.Table, Currents, States;
      pcurrjob := null;
    }

    /** The job with an index: the branch of pfind for %number. */
    method PFind(idx: nat) returns (pp: Process?)
      requires Valid()
      ensures pp == null <==> forall p :: p in procs && p in ids && Leads(ids, p) ==> ids[p].index != idx
      ensures pp != null ==> pp in procs && pp in ids && Leads(ids, pp) && ids[pp].index == idx
      ensures pp != null ==> forall p :: p in procs && p in ids && Leads(ids, p) && ids[p].index == idx ==> p == pp
    {
      hide Held, Listed, Elems, Currents, States, Circle, NoDup;
      HeldHead();
      FlagsOf();
      pp := proclist.next;
      ghost var k: nat := 0;
      while pp != null
        invariant k <= |procs| && pp == Nth(procs, k)
        invariant forall i :: 0 <= i < k ==> procs[i] in ids && !(Leads(ids, procs[i]) && ids[procs[i]].index == idx)
        decreases |procs| - k
      {
        HeldIn(k);
        HeldAt(pp);
        if pp.index == idx && pp.pid == pp.jobid {
          JobIs(friends, ids, procs, ring, pmaxindex, pp);
          assert ids[pp].pid == 0 ==> DeadAt(ids, pp);
          forall p | p in procs && p in ids && Leads(ids, p) && ids[p].index == idx ensures p == pp {
            assert IndexesDiffer(ids, p, pp);
          }
          return;
        }
        pp := pp.next;
        k := k + 1;
      }
    }

    // ---- Reaping in pwait ----

    /** Unlinking and freeing a record. */
    method Free(fp: Process, pp: Process)
      requires Held() && fp in nexts && pp in ids && fp != pp
      modifies `nexts, `friends, `ids, `flags, fp`next
      ensures Held() && pp in old(nexts) && nexts == old(nexts)[fp := old(nexts)[pp]] - {pp}
      ensures friends == old(friends) - {pp} && ids == old(ids) - {pp} && flags == old(flags) - {pp}
    {
      hide NextsHeld, FriendsHeld, IdsHeld, FlagsHeld, Keyed;
      HeldNext(pp);
      PutNext(fp, pp.next);
      KeyedLess(nexts, friends, ids, flags, proclist, pp);
      Forget(pp);
    }

    lemma HeldNext(p: Process)
      requires Held() && p in ids
      ensures p in nexts && nexts[p] == p.next
    {
    }

    ghost method Forget(pp: Process)
      requires NextsHeld() && FriendsHeld() && IdsHeld() && FlagsHeld()
      modifies `nexts, `friends, `ids, `flags
      ensures NextsHeld() && FriendsHeld() && IdsHeld() && FlagsHeld()
      ensures nexts == old(nexts) - {pp} && friends == old(friends) - {pp} && ids == old(ids) - {pp} && flags == old(flags) - {pp}
    {
      nexts, friends, ids, flags := nexts - {pp}, friends - {pp}, ids - {pp}, flags - {pp};
    }

    /** One record out of the list. */
    method FreeOne(fp: Process, pp: Process, ghost kept: seq<Process>, ghost rest: seq<Process>,
                   ghost fr0: Ptrs, ghost ids0: Ids, ghost flags0: map<Process, Flags>)
      requires Held() && procs == kept + [pp] + rest && Listed(nexts, proclist, procs) && NoDup(procs) && proclist !in procs
      requires Agree(fr0, ids0, flags0, friends, ids, flags, procs)
      requires fp == if kept == [] then proclist else kept[|kept| - 1]
      modifies `nexts, `friends, `ids, `flags, `procs, fp`next
      ensures Held() && procs == kept + rest && Listed(nexts, proclist, procs) && NoDup(procs)
      ensures Agree(fr0, ids0, flags0, friends, ids, flags, procs) && nexts.Keys <= old(nexts.Keys) && fp in nexts
    {
      hide Held, Listed, Agree, NoDup;
      ListedLess(nexts, proclist, kept, pp, rest);
      AgreeLess(fr0, ids0, flags0, friends, ids, flags, kept, pp, rest);
      InAgree(fr0, ids0, flags0, kept, pp, rest);
      Free(fp, pp);
      procs := kept + rest;
    }

    lemma InAgree(fr0: Ptrs, ids0: Ids, flags0: map<Process, Flags>, kept: seq<Process>, pp: Process, rest: seq<Process>)
      requires procs == kept + [pp] + rest && NoDup(procs) && proclist !in procs && Agree(fr0, ids0, flags0, friends, ids, flags, procs)
      ensures pp in ids && pp != (if kept == [] then proclist else kept[|kept| - 1])
    {
      assert procs[|kept|] == pp && pp in procs;
      if kept != [] { assert Differ(procs, |kept| - 1, |kept|); }
    }

    /** The loop of pwait: every record that was flushed is freed, and only those. */
    method PWait()
      requires Valid()
      modifies `nexts, `friends, `ids, `flags, `procs, nexts.Keys`next
      ensures Valid() && Now() == AfterWait(old(Now())) && nexts.Keys <= old(nexts.Keys)
      ensures forall p :: p in procs ==> p in ids && ids[p].pid > 0
    {
      hide Held, Listed, Jobs.Table, Currents, States, Leads, Agree, NoDup, Live;
      ReapStart();
      Reap();
      ReapDone(old(friends), old(ids), old(flags), friends, ids, flags, old(procs), procs, ring, pmaxindex,
               pcurrent, pprevious, pcurrjob);
      AgreeKeys(old(friends), old(ids), old(flags));
      AgreeOnly(old(friends), old(ids), old(flags));
    }

    lemma AgreeOnly(fr0: Ptrs, ids0: Ids, flags0: map<Process, Flags>)
      requires Agree(fr0, ids0, flags0, friends, ids, flags, procs) && Held()
      ensures ids == Only(ids0, procs) && flags == Only(flags0, procs)
    {
      hide NextsHeld, FriendsHeld, IdsHeld, FlagsHeld;
    }

    lemma ReapStart()
      requires Valid()
      ensures NoDup(procs) && proclist !in procs && Agree(friends, ids, flags, friends, ids, flags, procs)
    {
      FlagsOf();
      assert proclist in procs ==> proclist in Elems(procs);
    }

    lemma AgreeKeys(fr0: Ptrs, ids0: Ids, flags0: map<Process, Flags>)
      requires Agree(fr0, ids0, flags0, friends, ids, flags, procs)
      ensures ids.Keys == Elems(procs)
    {
    }

    /** One round of the loop. */
    method ReapOne(fp0: Process, pp0: Process, ghost kept0: seq<Process>, ghost rest: seq<Process>,
                   ghost fr0: Ptrs, ghost ids0: Ids, ghost flags0: map<Process, Flags>) returns (fp: Process, ghost kept: seq<Process>)
      requires Held() && procs == kept0 + [pp0] + rest && Listed(nexts, proclist, procs) && NoDup(procs) && proclist !in procs
      requires Agree(fr0, ids0, flags0, friends, ids, flags, procs)
      requires fp0 == if kept0 == [] then proclist else kept0[|kept0| - 1]
      modifies `nexts, `friends, `ids, `flags, `procs, fp0`next
      ensures kept == kept0 + (if pp0 in ids0 && ids0[pp0].pid > 0 then [pp0] else [])
      ensures Held() && procs == kept + rest && Listed(nexts, proclist, procs) && NoDup(procs) && proclist !in procs
      ensures Agree(fr0, ids0, flags0, friends, ids, flags, procs) && nexts.Keys <= old(nexts.Keys)
      ensures fp == (if kept == [] then proclist else kept[|kept| - 1]) && fp in nexts && fp.next == Nth(rest, 0)
    {
      hide Held, Listed, Agree, NoDup;
      var pp := pp0;
      kept := kept0;
      assert procs[|kept|] == pp;
      AgreeAt(fr0, ids0, flags0, pp);
      if pp.pid == 0 {
        FreeOne(fp0, pp, kept, rest, fr0, ids0, flags0);
        pp := fp0;
      } else {
        kept := kept + [pp];
      }
      fp := pp;
      NextOf(kept, rest);
    }

    method Reap()
      requires Held() && Listed(nexts, proclist, procs) && NoDup(procs) && proclist !in procs
      requires Agree(friends, ids, flags, friends, ids, flags, procs)
      modifies `nexts, `friends, `ids, `flags, `procs, nexts.Keys`next
      ensures Held() && Listed(nexts, proclist, procs) && procs == Live(old(ids), old(procs)) && nexts.Keys <= old(nexts.Keys)
      ensures Agree(old(friends), old(ids), old(flags), friends, ids, flags, procs)
    {
      hide Held, Listed, Agree, NoDup, Live;
      ghost var fr0, ids0, flags0, procs0 := friends, ids, flags, procs;
      ghost var kept: seq<Process>, k: nat := [], 0;
      LiveNone(ids0);
      assert procs0[..0] == [] && procs0[0..] == procs0 && [] + procs0 == procs0;
      ListHead(nexts, proclist, procs);
      HeldFrom(proclist);
      var fp := proclist;
      var pp := fp.next;
      while pp != null
        invariant k <= |procs0| && kept == Live(ids0, procs0[..k]) && procs == kept + procs0[k..]
        invariant Held() && Listed(nexts, proclist, procs) && NoDup(procs) && proclist !in procs
        invariant Agree(fr0, ids0, flags0, friends, ids, flags, procs)
        invariant fp == (if kept == [] then proclist else kept[|kept| - 1]) && fp in nexts && fp in old(nexts)
        invariant pp == Nth(procs0, k) && nexts.Keys <= old(nexts.Keys)
        decreases |procs0| - k
      {
        fp, kept := ReapRound(fp, pp, kept, k, procs0, fr0, ids0, flags0);
        k := k + 1;
        pp := fp.next;
      }
      assert procs0[..k] == procs0 && kept + procs0[k..] == kept;
    }

    method ReapRound(fp0: Process, pp0: Process, ghost kept0: seq<Process>, ghost k: nat, ghost procs0: seq<Process>,
                     ghost fr0: Ptrs, ghost ids0: Ids, ghost flags0: map<Process, Flags>) returns (fp: Process, ghost kept: seq<Process>)
      requires k < |procs0| && pp0 == procs0[k] && kept0 == Live(ids0, procs0[..k]) && procs == kept0 + procs0[k..]
      requires Held() && Listed(nexts, proclist, procs) && NoDup(procs) && proclist !in procs
      requires Agree(fr0, ids0, flags0, friends, ids, flags, procs)
      requires fp0 == if kept0 == [] then proclist else kept0[|kept0| - 1]
      modifies `nexts, `friends, `ids, `flags, `procs, fp0`next
      ensures kept == Live(ids0, procs0[..k + 1]) && procs == kept + procs0[k + 1..]
      ensures Held() && Listed(nexts, proclist, procs) && NoDup(procs) && proclist !in procs
      ensures Agree(fr0, ids0, flags0, friends, ids, flags, procs) && nexts.Keys <= old(nexts.Keys)
      ensures fp == (if kept == [] then proclist else kept[|kept| - 1]) && fp in nexts && fp.next == Nth(procs0, k + 1)
    {
      hide Held, Listed, Agree, NoDup, Live;
      RestFrom(kept0, procs0, k);
      LiveMore(ids0, procs0, k);
      fp, kept := ReapOne(fp0, pp0, kept0, procs0[k + 1..], fr0, ids0, flags0);
    }

    static lemma RestFrom(kept: seq<Process>, ps: seq<Process>, k: nat)
      requires k < |ps|
      ensures kept + ps[k..] == kept + [ps[k]] + ps[k + 1..]
    {
    }

    static lemma LiveNone(ids: Ids)
      ensures Live(ids, []) == []
    {
    }

    static lemma ListHead(nexts: Ptrs, head: Process, ps: seq<Process>)
      requires Listed(nexts, head, ps)
      ensures head in nexts && nexts[head] == Nth(ps, 0)
    {
    }

    lemma HeldFrom(p: Process)
      requires Held() && p in nexts
      ensures nexts[p] == p.next
    {
    }

    lemma AgreeAt(fr0: Ptrs, ids0: Ids, flags0: map<Process, Flags>, p: Process)
      requires Held() && p in procs && Agree(fr0, ids0, flags0, friends, ids, flags, procs)
      ensures p in ids && p in ids0 && ids0[p].pid == p.pid && p in nexts
    {
    }

    /** What comes after the last of a part of the list. */
    lemma NextOf(kept: seq<Process>, rest: seq<Process>)
      requires Held() && Listed(nexts, proclist, procs) && procs == kept + rest
      ensures var fp := if kept == [] then proclist else kept[|kept| - 1]; fp in nexts && fp.next == Nth(rest, 0)
    {
      ListHead(nexts, proclist, procs);
      if kept != [] { ListedAt(nexts, proclist, procs, |kept| - 1); }
    }

    // ---- pnote ----

    /** Telling of the job of a process that needs it, and flushing it if it is done. */
    method NoteOne(pp: Process)
      requires Valid() && pp in procs && pp.flags.neednote
      modifies `pcurrent, `pprevious, `pcurrjob, `pmaxindex, `flags, `ids, flags.Keys`flags, ids.Keys`index, ids.Keys`pid
      ensures Valid() && flags.Keys == old(flags.Keys) && ids.Keys == old(ids.Keys) && pp in flags && !flags[pp].neednote
      ensures forall p :: p in old(flags) && p in flags && flags[p].neednote ==> old(flags)[p].neednote
      ensures Now() == AfterNoted(old(Now()), pp)
    {
      hide Valid, Flushed, Changed, Cleared;
      InValid(pp);
      ClearNote(pp);
      ghost var flags1 := flags;
      var jf := Together(pp);
      if !jf.running && !jf.stopped {
        PFlush(pp);
        NoMoreNotes(flags1, ring[pp]);
      }
      NotesLess(old(flags), flags1, pp);
    }

    static lemma NoMoreNotes(flags: map<Process, Flags>, r: seq<Process>)
      ensures var g := Changed(flags, r, Unnote);
        g.Keys == flags.Keys && forall p :: p in g && g[p].neednote ==> flags[p].neednote
    {
    }

    static lemma NotesLess(flags0: map<Process, Flags>, flags1: map<Process, Flags>, pp: Process)
      requires pp in flags0 && flags1 == flags0[pp := flags0[pp].(neednote := false)]
      ensures flags1.Keys == flags0.Keys && forall p :: p in flags1 && flags1[p].neednote ==> flags0[p].neednote && p != pp
    {
    }

    method ClearNote(pp: Process)
      requires Valid() && pp in procs && pp.flags.neednote
      modifies `flags, pp`flags
      ensures Valid() && pp in old(flags) && flags == old(flags)[pp := old(flags)[pp].(neednote := false)]
      ensures pp.pid > 0
    {
      hide Held, Listed, Elems, Jobs.Table, Currents, OneOf;
      InValid(pp);
      Mark(pp, pp.flags.(neednote := false));
    }

    lemma FromHead()
      requires Valid()
      ensures proclist.next == Nth(procs, 0)
    {
      HeldHead();
    }

    lemma FromAt(k: nat)
      requires Valid() && k < |procs|
      ensures procs[k].next == Nth(procs, k + 1)
    {
      HeldIn(k);
    }

    lemma AllIn()
      requires Valid()
      ensures forall p :: p in procs ==> p in flags
    {
      FlagsOf();
    }

    method NoteIf(pp: Process)
      requires Valid() && pp in procs
      modifies `pcurrent, `pprevious, `pcurrjob, `pmaxindex, `flags, `ids, flags.Keys`flags, ids.Keys`index, ids.Keys`pid
      ensures Valid() && Now() == AfterNoted(old(Now()), pp) && flags.Keys == old(flags.Keys) && ids.Keys == old(ids.Keys)
      ensures pp in flags && !flags[pp].neednote
      ensures forall p :: p in old(flags) && p in flags && flags[p].neednote ==> old(flags)[p].neednote
    {
      hide Valid, AfterNoted;
      InValid(pp);
      if pp.flags.neednote {
        NoteOne(pp);
      } else {
        NotNoted(Now(), pp);
      }
    }

    static lemma NotNoted(s: State, p: Process)
      requires p in s.flags && !s.flags[p].neednote
      ensures AfterNoted(s, p) == s
    {
    }

    /** pnote: afterwards, nothing needs a note. */
    method PNote()
      requires Valid()
      modifies `pcurrent, `pprevious, `pcurrjob, `pmaxindex, `flags, `ids, flags.Keys`flags, ids.Keys`index, ids.Keys`pid
      ensures Valid() && Now() == AfterNotes(old(Now()), |procs|) && procs == old(procs)
      ensures forall p :: p in procs ==> p in flags && !flags[p].neednote
      ensures flags.Keys == old(flags.Keys) && ids.Keys == old(ids.Keys)
    {
      hide Valid, AfterNoted;
      FromHead();
      AllIn();
      var pp := proclist.next;
      ghost var k: nat := 0;
      while pp != null
        invariant Valid() && k <= |procs| && pp == Nth(procs, k)
        invariant flags.Keys == old(flags.Keys) && ids.Keys == old(ids.Keys)
        invariant procs == old(procs) && Now() == AfterNotes(old(Now()), k)
        invariant forall i :: 0 <= i < k ==> procs[i] in flags && !flags[procs[i]].neednote
        decreases |procs| - k
      {
        NoteIf(pp);
        AllIn();
        FromAt(k);
        pp := pp.next;
        k := k + 1;
      }
    }

    /** A run of events goes from table to table as they say, and every one on the way is sound. */
    method Run(events: seq<Event>) returns (ghost trace: seq<State>)
      requires Valid()
      modifies this, nexts.Keys
      ensures Valid()
      ensures |trace| == |events| + 1 && trace[0] == old(Now()) && trace[|events|] == Now()
      ensures forall i :: 0 <= i < |events| ==> Next(trace[i], events[i], trace[i + 1])
      ensures forall i :: 0 <= i <= |events| ==> Sound(trace[i])
    {
      hide Valid, Next, Sound;
      var i := 0;
      NowSound();
      trace := [Now()];
      while i < |events|
        invariant Valid() && fresh(nexts.Keys - old(nexts.Keys))
        invariant i <= |events| && |trace| == i + 1 && trace[0] == old(Now()) && trace[i] == Now()
        invariant forall k :: 0 <= k < i ==> Next(trace[k], events[k], trace[k + 1])
        invariant forall k :: 0 <= k <= i ==> Sound(trace[k])
      {
        Do(events[i]);
        NowSound();
        trace := trace + [Now()];
        i := i + 1;
      }
    }

    static lemma ElemsMore(ps: seq<Process>, pp: Process)
      ensures Elems([pp] + ps) == Elems(ps) + {pp}
    {
    }

    lemma Owned()
      requires Valid()
      ensures nexts.Keys == Elems(procs) + {proclist} && ids.Keys == flags.Keys == friends.Keys == Elems(procs)
      ensures proclist in nexts
    {
    }

    /** What the records hold, as the table has it. */
    lemma InNow(p: Process)
      requires Valid() && p in procs
      ensures forall pid :: HasPid(Now(), p, pid) <==> p.pid == pid > 0
      ensures forall pid :: Reports(Now(), p, pid) <==> p.pid == pid > 0 && (p.flags.running || p.flags.stopped)
      ensures forall index :: HasIndex(Now(), p, index) <==> p in ids && Leads(ids, p) && ids[p].index == index
    {
      hide Listed, Elems, Jobs.Table, Currents, States;
      InValid(p);
    }

    /** What the system would not do is left out. */
    method Do(e: Event)
      requires Valid()
      modifies this, nexts.Keys
      ensures Valid() && fresh(nexts.Keys - old(nexts.Keys))
      ensures Next(old(Now()), e, Now())
    {
      hide Valid, Forked, AfterChild, AfterFlush, AfterNotes, AfterWait, AfterStart, HasPid, Reports, HasIndex, InTableNow;
      Owned();
      AllInTable();
      match e {
        case Fork(pid, amp) => DoFork(pid, amp);
        case Child(pid, why, notify) => DoChild(pid, why, notify);
        case Start(idx, foregnd) => DoStart(idx, foregnd);
        case Flush(pid) => DoFlush(pid);
        case Wait => PWait();
        case Note => PNote();
        case EndJob => PEndJob();
      }
      Owned();
    }

    lemma AllInTable()
      requires Valid()
      ensures forall p :: p in procs ==> InTableNow(p)
    {
      hide Valid, HasPid, Reports, HasIndex;
      forall p | p in procs ensures InTableNow(p) { InNow(p); }
    }

    ghost predicate InTableNow(p: Process)
      reads `ids, `flags, `procs, `ring, `pcurrent, `pprevious, `pcurrjob, p`pid, p`flags
    {
      && (forall pid :: HasPid(Now(), p, pid) <==> p.pid == pid > 0)
      && (forall pid :: Reports(Now(), p, pid) <==> p.pid == pid > 0 && (p.flags.running || p.flags.stopped))
      && (forall index :: HasIndex(Now(), p, index) <==> p in ids && Leads(ids, p) && ids[p].index == index)
    }

    method DoFork(pid: nat, amp: bool)
      requires Valid() && proclist in nexts && friends.Keys <= nexts.Keys && forall p :: p in procs ==> InTableNow(p)
      modifies this, nexts.Keys
      ensures Valid() && fresh(nexts.Keys - old(nexts.Keys)) && Next(old(Now()), Fork(pid, amp), Now())
    {
      hide Held, Listed, Elems, Jobs.Table, Currents, States, Leads, Forked, HasPid, Reports, HasIndex;
      Owned();
      if pid > 0 {
        var pp := Find(pid);
        if pp == null {
          pp := PAlloc(pid, amp);
          ElemsMore(old(procs), pp);
        }
      }
      Owned();
    }

    method DoChild(pid: nat, why: Why, notify: bool)
      requires Valid() && ids.Keys == flags.Keys <= nexts.Keys && forall p :: p in procs ==> InTableNow(p)
      modifies `pcurrent, `pprevious, `pcurrjob, `pmaxindex, `flags, `ids, nexts.Keys
      ensures Valid() && Next(old(Now()), Child(pid, why, notify), Now())
    {
      hide Valid, AfterChild, HasPid, Reports, HasIndex;
      if pid > 0 {
        var pp := Find(pid);
        if pp == null || pp.flags.running || pp.flags.stopped {
          pp := PChild(pid, why, notify);
        }
      }
    }

    method DoStart(index: nat, foregnd: bool)
      requires Valid() && ids.Keys == flags.Keys <= nexts.Keys && forall p :: p in procs ==> InTableNow(p)
      modifies `pcurrent, `pprevious, `flags, nexts.Keys
      ensures Valid() && Next(old(Now()), Start(index, foregnd), Now())
    {
      hide Valid, AfterStart, HasPid, Reports, HasIndex, Leads;
      var pp := PFind(index);
      if pp != null {
        PStart(pp, foregnd);
      }
    }

    method DoFlush(pid: nat)
      requires Valid() && ids.Keys == flags.Keys <= nexts.Keys && forall p :: p in procs ==> InTableNow(p)
      modifies `pcurrent, `pprevious, `pcurrjob, `pmaxindex, `flags, `ids, nexts.Keys
      ensures Valid() && Next(old(Now()), Flush(pid), Now())
    {
      hide Valid, AfterFlush, HasPid, Reports, HasIndex;
      if pid > 0 {
        var pp := Find(pid);
        if pp != null {
          PFlush(pp);
        }
      }
    }

    /** What holds of the records themselves in every state a run can come to. */
    lemma InEveryState()
      requires Valid()
      ensures pcurrent == null ==> pprevious == null
      ensures pcurrent != null ==> pcurrent in procs && pcurrent.pid > 0 && pcurrent.jobid == pcurrent.pid && pcurrent != pprevious
      ensures pprevious != null ==> pprevious in procs && pprevious.pid > 0 && pprevious.jobid == pprevious.pid
      ensures forall p :: p in procs && p.pid > 0 ==> OneState(p.flags)
      ensures forall p :: p in procs ==>
        && p in ring && p in ring[p] && (forall m :: m in ring[p] ==> m in procs && (m.pid > 0) == (p.pid > 0))
        && (p.pid > 0 ==> forall m :: m in ring[p] ==> (m.pid == m.jobid <==> m == ring[p][0]) && m.index == p.index)
      ensures forall p, q :: p in procs && q in procs && p.pid == p.jobid && q.pid == q.jobid && p != q ==> p.index != q.index
      ensures forall p :: p in procs ==> p.index <= pmaxindex
      ensures pmaxindex > 0 ==> exists p :: p in procs && p.pid == p.jobid && p.index == pmaxindex
    {
      hide Held, Listed, Elems, OneState, NoDup;
      forall p | p in procs
        ensures p in ids && p in flags && ids[p] == Id(p.pid, p.jobid, p.index) && flags[p] == p.flags && (p.pid == p.jobid ==> Leads(ids, p))
      {
        InValid(p);
        JobIs(friends, ids, procs, ring, pmaxindex, p);
        assert ids[p].pid == 0 ==> DeadAt(ids, p);
      }
      forall p | p in procs ensures p in ring && p in ring[p] && Alike(p) {
        AllAlike(p);
      }
      forall p, q | p in procs && q in procs && p.pid == p.jobid && q.pid == q.jobid && p != q ensures p.index != q.index {
        assert IndexesDiffer(ids, p, q);
      }
      if pmaxindex > 0 { MaxLed(); }
    }

    /** The processes of a job are alike, but that one leads. */
    ghost predicate Alike(p: Process)
      requires p in ring
      reads `ring, p, ring[p], `procs
    {
      && (forall m :: m in ring[p] ==> m in procs && (m.pid > 0) == (p.pid > 0))
      && (p.pid > 0 ==> forall m :: m in ring[p] ==> (m.pid == m.jobid <==> m == ring[p][0]) && m.index == p.index)
    }

    lemma AllAlike(p: Process)
      requires Valid() && p in procs
      ensures p in ring && p in ring[p] && Alike(p)
    {
      hide Held, Listed, Elems, OneState, NoDup;
      InValid(p);
      JobIs(friends, ids, procs, ring, pmaxindex, p);
      forall m | m in ring[p] ensures m in procs && (m.pid > 0) == (p.pid > 0) {
        InValid(m);
        assert if ids[p].pid > 0 then LiveAt(ids, m, ring[p][0]) else DeadAt(ids, m);
      }
      if p.pid > 0 {
        forall m | m in ring[p] ensures (m.pid == m.jobid <==> m == ring[p][0]) && m.index == p.index {
          OneLeader(friends, ids, procs, ring, pmaxindex, p, m);
          InValid(m);
          assert LiveAt(ids, m, ring[p][0]) && LiveAt(ids, p, ring[p][0]);
        }
      }
    }

    lemma MaxLed()
      requires Valid() && pmaxindex > 0
      ensures exists p :: p in procs && p.pid == p.jobid && p.index == pmaxindex
    {
      hide Held, Listed, Elems, OneState, NoDup;
      var p: Process :| p in procs && p in ids && ids[p].index == pmaxindex;
      InValid(p);
      AllAlike(p);
      JobIs(friends, ids, procs, ring, pmaxindex, p);
      assert ids[p].pid == 0 ==> DeadAt(ids, p);
      var l := ring[p][0];
      assert l in ring[p];
      assert l.pid == l.jobid && l.index == pmaxindex;
    }
  }
}
