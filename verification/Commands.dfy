/** The editing commands, as the command loop runs them, against a plain description of what they
    do to a sequence of lines: whatever the undo log holds, undo exchanges the text with the text
    there was when the log was last reset. */
module Commands {
  import opened Basics
  import opened Rings
  import opened UndoLog
  import opened Scratch
  import opened Lines
  import opened Editor

  /** A command with its addresses; the addresses are those the command line gave, checked when
      the command is run. */
  datatype Cmd =
    | Append(line2: nat, texts: seq<string>)
    | Insert(line2: nat, texts: seq<string>)
    | Change(line1: nat, line2: nat, texts: seq<string>)
    | Delete(line1: nat, line2: nat)
    | Join(line1: nat, line2: nat)
    | Move(line1: nat, line2: nat, num: nat)
    | Transfer(line1: nat, line2: nat, num: nat)
    | Subst(line1: nat, line2: nat, sub: string -> Repl)
    | Undo

  /** The lines of the buffer and the current line's number. */
  datatype Text = Text(lines: seq<string>, cur: nat)

  /** The text now, and the text undo would put in its place. */
  datatype State = State(now: Text, back: Option<Text>)

  predicate InRange(line1: nat, line2: nat, last: nat) {
    1 <= line1 <= line2 <= last
  }

  /** The text after a command other than undo, and whether it succeeds; None if it is refused
      before anything is done. */
  function Edit(c: Cmd, t: Text, glob: bool): Option<(Text, bool)>
    requires c != Undo
  {
    var ts, last := t.lines, |t.lines|;
    match c
    case Append(n, texts) =>
      if n > last then None else Some(Added(ts, n, texts))
    case Insert(n, texts) =>
      if n == 0 || n > last then None else Some(Added(ts, n - 1, texts))
    case Change(i, j, texts) =>
      if !InRange(i, j, last) then None else Some(Added(ts[..i - 1] + ts[j..], i - 1, texts))
    case Delete(i, j) =>
      if !InRange(i, j, last) then None
      else Some((Text(ts[..i - 1] + ts[j..], if j < last then i else i - 1), true))
    case Join(i, j) =>
      if !InRange(i, j, last) then None
      else if i == j then Some((t, true))
      else
        var one := Joined(ts[i - 1..j]);
        if |one| < LINECHARS then Some((Text(ts[..i - 1] + [one] + ts[j..], i), true))
        else Some((Text(ts[..i - 1] + ts[j..], i - 1), false))
    case Move(i, j, n) =>
      if !InRange(i, j, last) || n > last || i <= n < j then None
      else Some((Text(MovedText(ts, i, j, n), if n < i then n + j - i + 1 else n), true))
    case Transfer(i, j, n) =>
      if !InRange(i, j, last) || n > last then None
      else Some((Text(ts[..n] + ts[i - 1..j] + ts[n..], n + j - i + 1), true))
    case Subst(i, j, sub) =>
      if !InRange(i, j, last) then None
      else
        var out := SubstLines(ts[i - 1..j], sub);
        Some((Text(ts[..i - 1] + out.lines + ts[j..], i - 1 + out.cur), out.ok && (out.nsubs > 0 || glob)))
  }

  /** How many of a command's lines are found too long to store: it stops at the first. */
  function TooLong(c: Cmd, t: Text): (n: nat)
    ensures n <= 1
  {
    var ts := t.lines;
    var stopped :=
      if c == Undo || Edit(c, t, true).None? then false
      else if c.Subst? then !SubstLines(ts[c.line1 - 1..c.line2], c.sub).ok
      else !Edit(c, t, true).value.1;
    if stopped then 1 else 0
  }

  function Added(ts: seq<string>, n: nat, texts: seq<string>): (Text, bool)
    requires n <= |ts|
  {
    var f := Fitting(texts);
    (Text(ts[..n] + f + ts[n..], n + |f|), f == texts)
  }

  /** The state after a command, and whether it succeeds. A command on its own starts a new undo
      log; one run as part of a global command adds to the log. */
  function Step(c: Cmd, s: State, glob: bool): (State, bool) {
    if c == Undo then
      match s.back
      case None => (s, false)
      case Some(t) => (State(t, Some(s.now)), true)
    else
      match Edit(c, s.now, glob)
      case None => (s, false)
      case Some((t, ok)) => (State(t, if glob then s.back else Some(s.now)), ok)
  }

  ghost function StateOf(b: Buffer): State
    reads b`ring, b`curln, b`saved, b`ucurln, b.scratch`data
  {
    State(Text(if |b.ring| > 0 then b.Contents() else [], b.curln),
          if b.ucurln < 0 then None
          else Some(Text(if |b.saved| > 0 then Texts(b.scratch.data, b.saved[1..]) else [], b.ucurln)))
  }

  /** No line has gained the mark of a global command, and no old node is taken for a new one. */
  twostate predicate Quiet(b: Buffer)
    reads b`ring, b`links, b.ring`active
  {
    && fresh(b.links.Keys - old(b.links.Keys))
    && forall l :: l in b.ring && l.active ==> l in old(b.ring) && old(l.active)
  }

  lemma BackKept(d0: string, d1: string, saved: seq<Line>)
    requires d0 <= d1 && |saved| > 0 && Held(d0, saved)
    ensures Texts(d1, saved[1..]) == Texts(d0, saved[1..])
  {
    assert Held(d0, saved[1..]);
    TextsKept(d0, d1[|d0|..], saved[1..]);
    assert d1 == d0 + d1[|d0|..];
  }

  /** The part of a command before it changes anything. */
  method Begin(b: Buffer, glob: bool)
    requires b.Valid()
    modifies b`links, b`mark, b`markno, b`ustack, b`log, b`saved, b`ucurln, b`ulastln
    ensures b.Valid() && StateOf(b).now == old(StateOf(b)).now
    ensures StateOf(b).back == if glob then old(StateOf(b)).back else Some(StateOf(b).now)
    ensures b.links.Keys <= old(b.links.Keys) && (glob ==> b.links == old(b.links))
    ensures |b.ring| == b.lastln + 1
  {
    hide Texts, Shape, LoggedIn, MarkedIn, StoredIn, IsRing, Held;
    b.Now();
    if !glob {
      b.UReset();
    }
  }

  method DoAppend(b: Buffer, n: nat, texts: seq<string>) returns (ok: bool)
    requires b.Valid() && n <= b.lastln
    modifies b`curln, b`lastln, b`cacheLp, b`cacheOn, b`ring, b`links, b`ustack, b`log, b`lost
    modifies b.scratch, b.links.Keys`next, b.links.Keys`prev
    ensures b.Valid() && Quiet(b) && |old(StateOf(b)).now.lines| == old(b.lastln)
    ensures (StateOf(b).now, ok) == Added(old(StateOf(b)).now.lines, n, texts)
    ensures StateOf(b).back == old(StateOf(b)).back
    ensures b.Lost(if ok then 0 else 1)
  {
    hide Texts, Buffer.Valid, IsRing, Held, Fitting;
    b.Now();
    b.SavedNow();
    ghost var d := b.scratch.data;
    ok := b.Append(n, texts);
    BackKept(d, b.scratch.data, b.saved);
    b.Now();
  }

  method DoDelete(b: Buffer, i: nat, j: nat)
    requires b.Valid() && InRange(i, j, b.lastln)
    modifies b`curln, b`lastln, b`cacheLp, b`cacheOn, b`ring, b`links, b`ustack, b`log
    modifies b.links.Keys`next, b.links.Keys`prev
    ensures b.Valid() && Quiet(b) && |old(StateOf(b)).now.lines| == old(b.lastln)
    ensures Edit(Delete(i, j), old(StateOf(b)).now, true) == Some((StateOf(b).now, true))
    ensures StateOf(b).back == old(StateOf(b)).back
  {
    hide Texts, Buffer.Valid, IsRing, Held;
    b.Now();
    b.LnDelete(i, j);
    b.GoOn();
  }

  method DoChange(b: Buffer, i: nat, j: nat, texts: seq<string>) returns (ok: bool)
    requires b.Valid() && InRange(i, j, b.lastln)
    modifies b`curln, b`lastln, b`cacheLp, b`cacheOn, b`ring, b`links, b`ustack, b`log, b`lost
    modifies b.scratch, b.links.Keys`next, b.links.Keys`prev
    ensures b.Valid() && Quiet(b) && |old(StateOf(b)).now.lines| == old(b.lastln)
    ensures Edit(Change(i, j, texts), old(StateOf(b)).now, true) == Some((StateOf(b).now, ok))
    ensures StateOf(b).back == old(StateOf(b)).back
    ensures b.Lost(if ok then 0 else 1)
  {
    hide Texts, Buffer.Valid, IsRing, Held, Fitting;
    b.Now();
    b.LnDelete(i, j);
    ok := DoAppend(b, b.curln, texts);
  }

  method DoJoin(b: Buffer, i: nat, j: nat) returns (ok: bool)
    requires b.Valid() && InRange(i, j, b.lastln)
    modifies b`curln, b`lastln, b`cacheLp, b`cacheOn, b`ring, b`links, b`ustack, b`log, b`lost
    modifies b.scratch, b.links.Keys`next, b.links.Keys`prev
    ensures b.Valid() && Quiet(b) && |old(StateOf(b)).now.lines| == old(b.lastln)
    ensures Edit(Join(i, j), old(StateOf(b)).now, true) == Some((StateOf(b).now, ok))
    ensures StateOf(b).back == old(StateOf(b)).back
    ensures b.Lost(if ok then 0 else 1)
  {
    hide Texts, Buffer.Valid, IsRing, Held, Fitting, Joined;
    b.Now();
    b.SavedNow();
    ghost var d := b.scratch.data;
    ok := true;
    if i != j {
      ok := b.Join(i, j);
      ghost var ts := old(b.Contents());
      OneFitting(Joined(ts[i - 1..j]));
      assert ts[..i - 1] + [] + ts[j..] == ts[..i - 1] + ts[j..];
    }
    BackKept(d, b.scratch.data, b.saved);
    b.Now();
  }

  method DoMove(b: Buffer, i: nat, j: nat, n: nat, glob: bool)
    requires b.Valid() && InRange(i, j, b.lastln) && n <= b.lastln && !(i <= n < j)
    modifies b`curln, b`lastln, b`cacheLp, b`cacheOn, b`ring, b`links, b`ustack, b`log
    modifies b.links.Keys`next, b.links.Keys`prev, b.links.Keys`active
    ensures b.Valid() && Quiet(b) && |old(StateOf(b)).now.lines| == old(b.lastln)
    ensures Edit(Move(i, j, n), old(StateOf(b)).now, glob) == Some((StateOf(b).now, true))
    ensures StateOf(b).back == old(StateOf(b)).back
  {
    hide Texts, Buffer.Valid, IsRing, Held, MovedText;
    b.Now();
    b.Move(i, j, n, glob);
  }

  method DoTransfer(b: Buffer, i: nat, j: nat, n: nat)
    requires b.Valid() && InRange(i, j, b.lastln) && n <= b.lastln
    modifies b`curln, b`lastln, b`cacheLp, b`cacheOn, b`ring, b`links, b`ustack, b`log
    modifies b.links.Keys`next, b.links.Keys`prev
    ensures b.Valid() && Quiet(b) && |old(StateOf(b)).now.lines| == old(b.lastln)
    ensures Edit(Transfer(i, j, n), old(StateOf(b)).now, true) == Some((StateOf(b).now, true))
    ensures StateOf(b).back == old(StateOf(b)).back
  {
    hide Texts, Buffer.Valid, IsRing, Held;
    b.Now();
    b.Transfer(i, j, n);
  }

  method DoSubst(b: Buffer, i: nat, j: nat, sub: string -> Repl, glob: bool) returns (ok: bool)
    requires b.Valid() && InRange(i, j, b.lastln)
    modifies b`curln, b`lastln, b`cacheLp, b`cacheOn, b`ring, b`links, b`ustack, b`log, b`lost
    modifies b.scratch, b.links.Keys`next, b.links.Keys`prev
    ensures b.Valid() && Quiet(b) && |old(StateOf(b)).now.lines| == old(b.lastln)
    ensures Edit(Subst(i, j, sub), old(StateOf(b)).now, glob) == Some((StateOf(b).now, ok))
    ensures StateOf(b).back == old(StateOf(b)).back
    ensures b.Lost(TooLong(Subst(i, j, sub), old(StateOf(b)).now))
  {
    hide Texts, Buffer.Valid, IsRing, Held, SubstLines;
    b.Now();
    b.SavedNow();
    ghost var d := b.scratch.data;
    ok := b.Subst(i, j, sub, glob);
    BackKept(d, b.scratch.data, b.saved);
    b.Now();
  }

  method DoUndo(b: Buffer, glob: bool) returns (ok: bool)
    requires b.Valid()
    modifies b`curln, b`lastln, b`cacheLp, b`cacheOn, b`ring, b`links, b`ustack, b`log
    modifies b`saved, b`ucurln, b`ulastln, b.links.Keys`next, b.links.Keys`prev, b.links.Keys`active
    ensures b.Valid() && b.links.Keys == old(b.links.Keys) && (glob ==> Quiet(b))
    ensures (StateOf(b), ok) == Step(Undo, old(StateOf(b)), glob)
  {
    hide Texts, Buffer.Valid, IsRing, Held;
    b.Now();
    b.SavedNow();
    b.BothOff();
    ok := b.Undo(glob);
    b.Now();
  }

  lemma OneFitting(t: string)
    ensures Fitting([t]) == if |t| < LINECHARS then [t] else []
  {
    assert Fitting([t][1..]) == [];
    assert [t] + [] == [t];
  }

  /** The address checks of each command, all made before it changes anything. */
  predicate Refused(c: Cmd, last: nat) {
    match c
    case Append(n, _) => n > last
    case Insert(n, _) => n == 0 || n > last
    case Change(i, j, _) => !InRange(i, j, last)
    case Delete(i, j) => !InRange(i, j, last)
    case Join(i, j) => !InRange(i, j, last)
    case Move(i, j, n) => !InRange(i, j, last) || n > last || i <= n < j
    case Transfer(i, j, n) => !InRange(i, j, last) || n > last
    case Subst(i, j, _) => !InRange(i, j, last)
    case Undo => false
  }

  method DoEdit(b: Buffer, c: Cmd, glob: bool) returns (ok: bool)
    requires b.Valid() && c != Undo && !Refused(c, b.lastln)
    modifies b`curln, b`lastln, b`cacheLp, b`cacheOn, b`ring, b`links, b`ustack, b`log, b`lost
    modifies b.scratch, b.links.Keys`next, b.links.Keys`prev, b.links.Keys`active
    ensures b.Valid() && Quiet(b)
    ensures Edit(c, old(StateOf(b)).now, glob) == Some((StateOf(b).now, ok))
    ensures StateOf(b).back == old(StateOf(b)).back
    ensures b.Lost(TooLong(c, old(StateOf(b)).now))
  {
    hide Texts, Buffer.Valid, IsRing, Held, Fitting, Joined, MovedText, SubstLines, Added, StateOf, Quiet;
    ok := true;
    LineCount(b);
    match c
    case Append(n, texts) => ok := DoAppend(b, n, texts);
    case Insert(n, texts) => ok := DoAppend(b, PrevLn(n, b.lastln), texts);
    case Change(i, j, texts) => ok := DoChange(b, i, j, texts);
    case Delete(i, j) => DoDelete(b, i, j);
    case Join(i, j) => ok := DoJoin(b, i, j);
    case Move(i, j, n) => DoMove(b, i, j, n, glob);
    case Transfer(i, j, n) => DoTransfer(b, i, j, n);
    case Subst(i, j, sub) => ok := DoSubst(b, i, j, sub, glob);
  }

  lemma LineCount(b: Buffer)
    requires b.Valid()
    ensures |StateOf(b).now.lines| == b.lastln
  {
    b.Now();
  }

  /** docmd: run one command; false if it is refused or fails. */
  method DoCmd(b: Buffer, c: Cmd, glob: bool) returns (ok: bool)
    requires b.Valid()
    modifies b, b.scratch, b.links.Keys`next, b.links.Keys`prev, b.links.Keys`active
    ensures b.Valid() && fresh(b.links.Keys - old(b.links.Keys)) && (glob ==> Quiet(b))
    ensures (StateOf(b), ok) == Step(c, old(StateOf(b)), glob)
    ensures b.Lost(TooLong(c, old(StateOf(b)).now))
  {
    hide Buffer.Valid, StateOf, IsRing, Held;
    LineCount(b);
    if c == Undo {
      ok := DoUndo(b, glob);
    } else if Refused(c, b.lastln) {
      ok := false;
      b.Now();
    } else {
      Begin(b, glob);
      ok := DoEdit(b, c, glob);
    }
  }

  // ---- Runs of commands ----

  function RunAll(cs: seq<Cmd>, s: State): State {
    if cs == [] then s else Step(cs[|cs| - 1], RunAll(cs[..|cs| - 1], s), true).0
  }

  /** How many lines were too long in a run of commands. */
  function TooLongs(cs: seq<Cmd>, s: State): nat {
    if cs == [] then 0
    else TooLongs(cs[..|cs| - 1], s) + TooLong(cs[|cs| - 1], RunAll(cs[..|cs| - 1], s).now)
  }

  lemma {:induction false} RunKeepsBack(cs: seq<Cmd>, s: State)
    requires Undo !in cs
    ensures RunAll(cs, s).back == s.back
  {
    if cs != [] {
      RunKeepsBack(cs[..|cs| - 1], s);
      assert cs[|cs| - 1] in cs;
    }
  }

  /** Undo after any run of commands (failed ones included) gives back the text there was when the
      undo log was reset; and what undo would then bring back is the text after the run. A node is
      lost for each line of the run that was too long to store, and for nothing else. */
  method RunThenUndo(b: Buffer, cs: seq<Cmd>)
    requires b.Valid() && Undo !in cs
    modifies b, b.scratch, b.links.Keys`next, b.links.Keys`prev, b.links.Keys`active
    ensures b.Valid()
    ensures var t := old(StateOf(b)).now;
      && StateOf(b) == State(t, Some(RunAll(cs, State(t, Some(t))).now))
      && |b.lost| == |old(b.lost)| + TooLongs(cs, State(t, Some(t)))
  {
    hide Buffer.Valid, StateOf, IsRing, Held, Step;
    ghost var nodes := b.links.Keys;
    Begin(b, false);
    ghost var s := StateOf(b);
    var i := 0;
    while i < |cs|
      invariant 0 <= i <= |cs| && b.Valid() && fresh(b.links.Keys - nodes)
      invariant StateOf(b) == RunAll(cs[..i], s) && |b.lost| == |old(b.lost)| + TooLongs(cs[..i], s)
    {
      var ok := DoCmd(b, cs[i], true);
      assert cs[..i + 1][..i] == cs[..i];
      i := i + 1;
    }
    assert cs[..|cs|] == cs;
    RunKeepsBack(cs, s);
    UndoSwaps(StateOf(b));
    var done := DoCmd(b, Undo, true);
  }

  lemma UndoSwaps(s: State)
    requires s.back.Some?
    ensures Step(Undo, s, true) == (State(s.back.value, Some(s.now)), true)
  {
  }

  // ---- Global commands ----

  /** The lines still to be visited by a global command. */
  ghost function Waiting(b: Buffer): set<Line>
    reads b`ring, b.ring`active
  {
    set l | l in b.ring && l.active
  }

  twostate lemma QuietWaiting(b: Buffer)
    requires Quiet(b)
    ensures Waiting(b) <= old(Waiting(b)) && |Waiting(b)| <= old(|Waiting(b)|)
  {
    SubsetSize(Waiting(b), old(Waiting(b)));
  }

  /** The command list run on one line of a global command: up to the first that fails. */
  method RunList(b: Buffer, cs: seq<Cmd>) returns (ok: bool)
    requires b.Valid()
    modifies b, b.scratch, b.links.Keys`next, b.links.Keys`prev, b.links.Keys`active
    ensures b.Valid() && fresh(b.links.Keys - old(b.links.Keys))
    ensures |Waiting(b)| <= old(|Waiting(b)|)
    ensures Undo !in cs ==> StateOf(b).back == old(StateOf(b)).back
  {
    hide Buffer.Valid, StateOf, IsRing, Held, Quiet, Waiting;
    ghost var nodes, most, back := b.links.Keys, |Waiting(b)|, StateOf(b).back;
    var i := 0;
    ok := true;
    while i < |cs|
      invariant 0 <= i <= |cs| && b.Valid() && fresh(b.links.Keys - nodes)
      invariant |Waiting(b)| <= most && (Undo !in cs ==> StateOf(b).back == back)
    {
      label L:
      ok := DoCmd(b, cs[i], true);
      QuietWaiting@L(b);
      if !ok {
        return;
      }
      i := i + 1;
    }
  }

  /** Take the mark off the line found, and make it current. */
  method Visit(b: Buffer, lc: nat, lp: Line)
    requires b.Valid() && 1 <= lc <= b.lastln && |b.ring| == b.lastln + 1 && lp == b.ring[lc] && lp.active
    modifies lp`active, b`curln
    ensures b.Valid() && b.curln == lc && StateOf(b).back == old(StateOf(b)).back
    ensures |Waiting(b)| < old(|Waiting(b)|)
  {
    hide Texts, LoggedIn, MarkedIn, StoredIn, IsRing, Held, Holds;
    ghost var w := Waiting(b);
    assert lp in w;
    lp.active := false;
    b.curln := lc;
    SubsetSize(Waiting(b), w - {lp});
  }

  /** doglob: visit each marked line once, first to last, running a list of commands at it; which
      list may depend on anything, so it is any function of the round. Each round ends with fewer
      marked lines than it started with, since no command gives a line of the buffer the mark; and
      the whole command is undone at once. */
  method DoGlob(b: Buffer, script: nat -> seq<Cmd>) returns (ok: bool, rounds: nat)
    requires b.Valid()
    modifies b, b.scratch, b.links.Keys`next, b.links.Keys`prev, b.links.Keys`active
    ensures b.Valid() && rounds <= old(|Waiting(b)|)
    ensures ok ==> forall i :: 1 <= i < |b.ring| ==> !b.ring[i].active
    ensures (forall k :: Undo !in script(k)) ==> StateOf(b).back == Some(old(StateOf(b)).now)
  {
    hide Buffer.Valid, StateOf, IsRing, Held, Waiting;
    ghost var nodes, most := b.links.Keys, |Waiting(b)|;
    Begin(b, false);
    ghost var back := StateOf(b).back;
    rounds := 0;
    ok := true;
    while true
      invariant b.Valid() && fresh(b.links.Keys - nodes) && rounds + |Waiting(b)| <= most
      invariant (forall k :: Undo !in script(k)) ==> StateOf(b).back == back
      decreases |Waiting(b)|
    {
      var lc, lp := b.FindActive();
      if lc > b.lastln {
        break;
      }
      Visit(b, lc, lp);
      ok := RunList(b, script(rounds));
      rounds := rounds + 1;
      if !ok {
        return;
      }
    }
  }
}
