/** The line editor's buffer: line nodes in a circular list rooted at line0, the cached position
    of the last line looked up, and the undo stack. */
module Editor {
  import opened Rings
  import opened UndoLog
  import opened Scratch
  import opened Lines

  class Buffer {
    const line0: Line
    const scratch: ScratchFile
    var curln: nat
    var lastln: nat
    var cacheLp: Line
    var cacheOn: nat
    var ustack: seq<Entry<Line>>
    var ucurln: int
    var ulastln: int
    var mark: seq<Line?>
    var markno: nat

    ghost var links: Links<Line>        // the line nodes allocated and not freed, and their links
    ghost var ring: seq<Line>           // line0, then the lines in order
    ghost var log: seq<Change<Line>>    // what ustack stores
    ghost var saved: seq<Line>          // the ring undo leads back to
    ghost var lost: set<Line>           // nodes allocated for lines too long to store, and never freed

    /** links holds what the nodes hold. */
    ghost predicate Mirrored()
      reads `links, links.Keys`next, links.Keys`prev
    {
      Holds(links)
    }

    ghost predicate Linked()
      reads `links, `ring, `lastln, `curln, `cacheLp, `cacheOn, links.Keys`next, links.Keys`prev
    {
      Mirrored() && Shape(links, ring, line0, curln, lastln, cacheOn, cacheLp)
    }

    ghost predicate Stored()
      reads `links, scratch
    {
      scratch.Valid() && StoredIn(scratch.data, links.Keys)
    }

    ghost predicate Logged()
      reads `links, `ring, `log, `saved, `ustack, `ucurln, `ulastln
    {
      LoggedIn(links, ring, log, saved, ustack, ucurln, ulastln)
    }

    ghost predicate Marked()
      reads `links, `mark, `markno
    {
      MarkedIn(mark, markno, links.Keys)
    }

    ghost predicate Valid()
      reads this, links.Keys`next, links.Keys`prev, scratch
    {
      Linked() && Stored() && Logged() && Marked()
    }

    /** The text of the lines, first to last. */
    ghost function Contents(): seq<string>
      requires |ring| > 0
      reads `ring, scratch`data
    {
      Texts(scratch.data, ring[1..])
    }

    /** The line nodes allocated and not freed. */
    ghost function Allocated(): set<Line>
      reads `links, `lost
    {
      links.Keys + lost
    }

    /** k more nodes have been lost. */
    twostate predicate Lost(k: nat)
      reads `lost
    {
      && old(lost) <= lost && fresh(lost - old(lost)) && |lost| == |old(lost)| + k
      && (k == 0 ==> lost == old(lost))
    }

    /** init_buf: an empty buffer on a given root node and empty scratch file. */
    constructor (root: Line, file: ScratchFile)
      requires root.seek == root.len == 0 && file.Valid() && file.data == ""
      modifies root
      ensures Valid() && line0 == root && scratch == file
      ensures ring == [root] && links.Keys == {root} && log == [] && ucurln == -1 && lost == {}
    {
      line0, cacheLp, scratch := root, root, file;
      curln, lastln, cacheOn, ucurln, ulastln, markno := 0, 0, 0, -1, -1, 0;
      ustack := [];
      mark := seq(MAXMARK, i => null);
      links, ring, log, saved, lost := LoneLink(root), [root], [], [root], {};
      new;
      Relink(line0, line0);
      LoneRing(links, line0);
      CountNone(mark);
    }

    /** The macro `requeue`: link pred before succ. */
    method Relink(pred: Line, succ: Line)
      requires Mirrored() && pred in links && succ in links
      modifies pred`next, succ`prev, this`links
      ensures Mirrored() && links == Requeue(old(links), pred, succ) && links.Keys == old(links.Keys)
    {
      pred.next := succ;
      succ.prev := pred;
      links := Requeue(links, pred, succ);
    }

    lemma MirroredAt(n: Line)
      requires Mirrored() && n in links
      ensures links[n] == Link(n.next, n.prev)
    {
    }

    /** A new node is among those allocated. */
    ghost method Admit(n: Line)
      requires Mirrored()
      modifies this`links
      ensures Mirrored() && links == old(links)[n := Link(n.next, n.prev)]
    {
      links := links[n := Link(n.next, n.prev)];
    }

    /** The macro `insqueue`: link a new node in after pred. */
    method InsQueue(elem: Line, pred: Line)
      requires Mirrored() && pred in links && pred.next in links && elem !in links
      modifies this`links, elem`next, elem`prev, pred`next, pred.next`prev
      ensures Mirrored() && links == Insert(old(links), elem, pred, old(pred.next))
      ensures links.Keys == old(links.Keys) + {elem}
    {
      hide Mirrored, Insert;
      var succ := pred.next;
      InsertAny(links, elem, Link(elem.next, elem.prev), pred, succ);
      Admit(elem);
      Relink(elem, succ);
      Relink(pred, elem);
    }

    /** getlp: the node of line n. The cached position is left at the line returned. */
    method GetLp(n: nat) returns (lp: Line)
      requires Linked()
      modifies this`cacheLp, this`cacheOn
      ensures Linked()
      ensures cacheOn == (if n <= lastln then n else lastln)
      ensures cacheOn < |ring| && lp == ring[cacheOn] == cacheLp
    {
      hide IsRing, Mirrored;
      if n > cacheOn {
        if n <= (cacheOn + lastln) / 2 {
          while cacheOn < n
            invariant cacheOn <= n <= lastln && cacheLp == ring[cacheOn]
          {
            NextLine(cacheOn);
            cacheLp := cacheLp.next;
            cacheOn := cacheOn + 1;
          }
        } else {
          PrevLine(0);
          cacheLp := line0.prev;
          cacheOn := lastln;
          while cacheOn > n
            invariant (if n <= lastln then n else lastln) <= cacheOn <= lastln && cacheLp == ring[cacheOn]
          {
            PrevLine(cacheOn);
            cacheLp := cacheLp.prev;
            cacheOn := cacheOn - 1;
          }
        }
      } else {
        if n >= cacheOn / 2 {
          while cacheOn > n
            invariant n <= cacheOn <= lastln && cacheLp == ring[cacheOn]
          {
            PrevLine(cacheOn);
            cacheLp := cacheLp.prev;
            cacheOn := cacheOn - 1;
          }
        } else {
          cacheLp := line0;
          cacheOn := 0;
          while cacheOn < n
            invariant cacheOn <= n <= lastln && cacheLp == ring[cacheOn]
          {
            NextLine(cacheOn);
            cacheLp := cacheLp.next;
            cacheOn := cacheOn + 1;
          }
        }
      }
      lp := cacheLp;
    }

    /** getaddr: the number of a line node. A node that is not in the buffer is an error (None),
        except that an empty buffer answers 0 for it. */
    method GetAddr(lp: Line?) returns (n: int)
      requires Linked()
      ensures forall i :: 0 <= i <= lastln && ring[i] == lp ==> n == i
      ensures (forall i :: 0 <= i <= lastln ==> ring[i] != lp) ==> n == if lastln > 0 then -2 else 0
    {
      var cp := line0;
      n := 0;
      while cp != lp
        invariant 0 <= n <= lastln && cp == ring[n]
        invariant forall i :: 0 <= i < n ==> ring[i] != lp
        decreases lastln - n
      {
        RingAt(links, ring, n);
        cp := cp.next;
        if n < lastln { SameIndex(ring, n + 1, 0); }
        if cp == line0 {
          break;
        }
        n := n + 1;
      }
      if cp == lp {
        forall i | 0 <= i <= lastln && ring[i] == lp ensures i == n {
          SameIndex(ring, i, n);
        }
        SameIndex(ring, n, 0);
      }
      if n > 0 && cp == line0 {
        n := -2;
      }
    }

    /** upush: push an undo entry for lines from..to. */
    method UPush(kind: Kind, from: nat, to: nat)
      requires Linked() && from <= lastln && to <= lastln
      modifies this`ustack, this`cacheLp, this`cacheOn
      ensures Linked() && cacheOn == from
      ensures ustack == old(ustack) + [Entry(kind, ring[from], ring[to])]
    {
      hide Mirrored, IsRing;
      var t := GetLp(to);
      var h := GetLp(from);
      ustack := ustack + [Entry(kind, h, t)];
    }

    /** lpqueue: link a new node in after the current line, which it becomes. */
    method LpQueue(lp: Line)
      requires Linked() && lp !in links
      modifies this`curln, this`lastln, this`cacheLp, this`cacheOn, this`ring, this`links
      modifies links.Keys`next, links.Keys`prev, lp`next, lp`prev
      ensures Linked() && links.Keys == old(links.Keys) + {lp}
      ensures curln == old(curln) + 1 && lastln == old(lastln) + 1
      ensures old(curln < |ring| && ring[curln] in links && At(ring, curln + 1) in links)
      ensures ring == Splice(old(ring), curln, [lp]) && ring[curln] == lp
      ensures links == Insert(old(links), lp, old(ring[curln]), old(At(ring, curln + 1)))
    {
      hide IsRing, Splice, Insert, Mirrored;
      ghost var h, r := links, ring;
      var here, count := curln, lastln;
      var cp := GetLp(here);   // this lookup last: it leaves the cache before the new line
      QueuedParts(h, r, line0, here, count, here, cp, lp);
      MirroredAt(cp);
      InsQueue(lp, cp);
      ring := Splice(r, here + 1, [lp]);
      lastln, curln := count + 1, here + 1;
    }

    ghost predicate Building(run: Run)
      reads `links, `ring, `curln, `saved
    {
      Continues(run, links, ring, curln, saved)
    }

    /** Log a line just linked in: extend the run's undo entry to it, or push one. */
    method LogLine(t: Line, up: bool, ghost run: Run)
      requires Linked() && t == ring[curln] && up == (run.seg != [])
      requires Pending(run, t, links, ring, curln, saved, log, ustack) && Target(ucurln, ulastln, saved)
      modifies this`ustack, this`cacheLp, this`cacheOn, this`log
      ensures Linked() && Logged()
      ensures log == RunLog(run.(seg := run.seg + [t]))
    {
      hide Pending, LoggedIn, Mirrored, IsRing, RunLog;
      PendingLogged(run, t, links, ring, curln, saved, log, ustack, ucurln, ulastln);
      if up {
        ustack := ustack[|ustack| - 1 := ustack[|ustack| - 1].(t := t)];
      } else {
        UPush(UADD, curln, curln);
      }
      log := RunLog(run.(seg := run.seg + [t]));
    }

    /** puttxt: store a line of text and link a node for it (lp) in after the current line. The node is
        allocated before the text is found to be too long, and then it is lost. */
    method PutTxt(text: string) returns (ok: bool, ghost lp: Line)
      requires Linked() && Stored() && Marked()
      modifies this`curln, this`lastln, this`cacheLp, this`cacheOn, this`ring, this`links, this`lost, scratch
      modifies links.Keys`next, links.Keys`prev
      ensures Linked() && Stored() && Marked()
      ensures ok <==> |text| < LINECHARS
      ensures !ok ==> unchanged(`curln, `lastln, `cacheLp, `cacheOn, `ring, `links, scratch)
      ensures Lost(if ok then 0 else 1)
      ensures ok ==> fresh(lp) && !lp.active && lp !in old(links) && links.Keys == old(links.Keys) + {lp}
      ensures ok ==> scratch.data == old(scratch.data) + text && LineText(scratch.data, lp) == text
      ensures ok ==> lp.seek + lp.len <= |scratch.data|
      ensures ok ==> curln == old(curln) + 1 && lastln == old(lastln) + 1
      ensures ok ==> old(curln < |ring| && ring[curln] in links && At(ring, curln + 1) in links)
      ensures ok ==> ring == Splice(old(ring), curln, [lp]) && ring[curln] == lp
      ensures ok ==> links == Insert(old(links), lp, old(ring[curln]), old(At(ring, curln + 1)))
    {
      hide StoredIn, MarkedIn, Linked, Mirrored, Insert, Splice;
      if |text| >= LINECHARS {
        var l := new Line(0, 0);   // its fields are never set
        lost := lost + {l};
        return false, line0;
      }
      ghost var d, nodes := scratch.data, links.Keys;
      var seek := scratch.PutText(text);
      var l := new Line(seek, |text|);
      LpQueue(l);
      StoredMore(d, scratch.data, nodes, l);
      MarkedMore(mark, markno, nodes, l);
      ok, lp := true, l;
    }

    /** The loop body shared by append, subst and join: one more line of text, logged. */
    method AddText(text: string, up: bool, ghost run: Run, ghost ts: seq<string>) returns (ok: bool, ghost more: Run)
      requires Valid() && Building(run) && log == RunLog(run) && up == (run.seg != [])
      requires Reads(scratch.data, run.seg, ts)
      modifies this`curln, this`lastln, this`cacheLp, this`cacheOn, this`ring, this`links, this`ustack, this`log, this`lost
      modifies scratch, links.Keys`next, links.Keys`prev
      ensures Valid() && Building(more) && log == RunLog(more)
      ensures fresh(links.Keys - old(links.Keys)) && old(links.Keys) <= links.Keys
      ensures ok <==> |text| < LINECHARS
      ensures old(scratch.data) <= scratch.data
      ensures ok ==> |more.seg| == |run.seg| + 1 && more == run.(seg := run.seg + [more.seg[|run.seg|]])
      ensures ok ==> Reads(scratch.data, more.seg, ts + [text])
      ensures !ok ==> more == run && Reads(scratch.data, run.seg, ts)
      ensures Lost(if ok then 0 else 1)
    {
      hide Continues, RunLog, Linked, LoggedIn, Pending, Target, Marked, Stored, Splice, Insert, Reads, LineText;
      ghost var h, r, here, d := links, ring, curln, scratch.data;
      ghost var lp;
      ok, lp := PutTxt(text);
      if !ok {
        return false, run;
      }
      QueuedPending(run, h, r, here, saved, lp, log, ustack, ucurln, ulastln);
      PendingContinues(run, lp, links, ring, curln, saved, log, ustack);
      ReadsMore(d, scratch.data, run.seg, lp, ts, text);
      more := run.(seg := run.seg + [lp]);
      assert curln <= lastln by { Within(); }
      var t := GetLp(curln);
      LogLine(t, up, run);
    }

    method SetCurln(n: nat)
      requires Valid() && n <= lastln
      modifies this`curln
      ensures Valid() && curln == n
    {
      hide IsRing, Mirrored;
      curln := n;
    }

    /** The end of the d command: go on to the next line, if there is one. */
    method GoOn()
      requires Valid()
      modifies this`curln
      ensures Valid() && |ring| == lastln + 1 && old(curln) <= lastln
      ensures curln == if old(curln) < lastln then old(curln) + 1 else old(curln)
    {
      hide IsRing, Holds;
      if NextLn(curln, lastln) != 0 {
        curln := NextLn(curln, lastln);
      }
    }

    lemma Within()
      requires Linked()
      ensures |ring| == lastln + 1 && curln <= lastln && cacheOn <= lastln
    {
    }

    lemma NextLine(k: nat)
      requires Linked() && k < |ring|
      ensures ring[k] in links && ring[k].next == At(ring, k + 1)
    {
      hide IsRing;
      RingAt(links, ring, k);
    }

    lemma PrevLine(k: nat)
      requires Linked() && k < |ring|
      ensures ring[k] in links && ring[k].prev == Before(ring, k)
    {
      hide IsRing;
      RingAt(links, ring, k);
    }

    lemma Now()
      requires Valid()
      ensures |ring| == lastln + 1 && curln <= lastln && ring[0] == line0
      ensures IsRing(links, ring) && Held(scratch.data, ring) && (forall l :: l in ring ==> l in links)
    {
      LoggedRing(links, ring, log, saved, ustack, ucurln, ulastln);
      HeldRing(scratch.data, links.Keys, ring);
    }

    /** A run about to be started after the current line. */
    lemma Start() returns (run: Run)
      requires Valid()
      ensures run == Run(links, ring, log, curln + 1, [])
      ensures Building(run) && log == RunLog(run) && Reads(scratch.data, run.seg, [])
    {
      run := StartRun(links, ring, curln, log, saved, ustack, ucurln, ulastln, scratch.data);
    }

    /** The inner loop of append and subst: add lines of text after the current line, up to the
        first that cannot be stored. */
    method AddLines(texts: seq<string>) returns (ok: bool)
      requires Valid()
      modifies this`curln, this`lastln, this`cacheLp, this`cacheOn, this`ring, this`links, this`ustack, this`log, this`lost
      modifies scratch, links.Keys`next, links.Keys`prev
      ensures old(scratch.data) <= scratch.data
      ensures Valid() && fresh(links.Keys - old(links.Keys)) && old(links.Keys) <= links.Keys && |ring| == lastln + 1
      ensures |old(ring)| == old(lastln) + 1 && lastln == old(lastln) + |Fitting(texts)|
      ensures Contents() == old(Contents())[..old(curln)] + Fitting(texts) + old(Contents())[old(curln)..]
      ensures curln == old(curln) + |Fitting(texts)| && ok == (Fitting(texts) == texts)
      ensures forall i :: 0 <= i < |ring| && ring[i].active ==> ring[i] in old(ring)
      ensures Lost(if ok then 0 else 1)
    {
      hide IsRing, Continues, RunLog, LoggedIn, Linked, Marked, Stored, Reads, Held, Texts;
      Now();
      ghost var n := curln;
      ghost var r0, d0 := ring, scratch.data;
      ghost var run := Start();
      var i := 0;
      ok := true;
      while i < |texts| && ok
        invariant 0 <= i <= |texts|
        invariant Valid() && Building(run) && log == RunLog(run)
        invariant fresh(links.Keys - old(links.Keys)) && old(links.Keys) <= links.Keys
        invariant run.r0 == r0 && run.at == n + 1 && |run.seg| == i
        invariant Reads(scratch.data, run.seg, texts[..i]) && d0 <= scratch.data
        invariant forall k :: 0 <= k < i ==> |texts[k]| < LINECHARS
        invariant !ok ==> i < |texts| && |texts[i]| >= LINECHARS
        invariant Lost(if ok then 0 else 1)
        decreases |texts| - i, ok
      {
        ok, run := AddText(texts[i], i > 0, run, texts[..i]);
        if ok {
          assert texts[..i + 1] == texts[..i] + [texts[i]];
          i := i + 1;
        }
      }
      Now();
      FittingPrefix(texts, i);
      Built(run, d0, texts[..i]);
    }

    /** append: add lines of text after line n. */
    method Append(n: nat, texts: seq<string>) returns (ok: bool)
      requires Valid() && n <= lastln
      modifies this`curln, this`lastln, this`cacheLp, this`cacheOn, this`ring, this`links, this`ustack, this`log, this`lost
      modifies scratch, links.Keys`next, links.Keys`prev
      ensures old(scratch.data) <= scratch.data
      ensures Valid() && fresh(links.Keys - old(links.Keys)) && old(links.Keys) <= links.Keys && |ring| == lastln + 1
      ensures |old(ring)| == old(lastln) + 1
      ensures Contents() == old(Contents())[..n] + Fitting(texts) + old(Contents())[n..]
      ensures curln == n + |Fitting(texts)| && ok == (Fitting(texts) == texts)
      ensures forall i :: 0 <= i < |ring| && ring[i].active ==> ring[i] in old(ring)
      ensures Lost(if ok then 0 else 1)
    {
      hide Linked, LoggedIn, Marked, Stored, Texts;
      Now();
      SetCurln(n);
      ok := AddLines(texts);
    }

    lemma Built(run: Run, d0: string, ts: seq<string>)
      requires Building(run) && Reads(scratch.data, run.seg, ts)
      requires d0 <= scratch.data && Held(d0, run.r0)
      ensures |ring| == |run.r0| + |ts| && curln == run.at - 1 + |ts| && 1 <= run.at <= |run.r0|
      ensures Contents() == Texts(d0, run.r0[1..])[..run.at - 1] + ts + Texts(d0, run.r0[1..])[run.at - 1..]
      ensures forall i :: 0 <= i < |ring| && ring[i].active ==> ring[i] in run.r0
    {
      FinishRun(run, links, ring, curln, saved, d0, scratch.data, ts);
    }

    /** The relinking part of lndelete. */
    method CutOut(from: nat, to: nat)
      requires Linked() && 1 <= from <= to <= lastln
      modifies this`curln, this`lastln, this`cacheLp, this`cacheOn, this`ring, this`links
      modifies links.Keys`next, links.Keys`prev
      ensures Linked() && links.Keys == old(links.Keys)
      ensures |old(ring)| == old(lastln) + 1 && old(ring[from - 1] in links && At(ring, to + 1) in links)
      ensures links == Requeue(old(links), old(ring)[from - 1], At(old(ring), to + 1))
      ensures ring == Cut(old(ring), from, to - from + 1)
      ensures curln == from - 1 && lastln == old(lastln) - (to - from + 1)
    {
      hide IsRing, Mirrored, Requeue, Cut;
      ghost var r, n := ring, to - from + 1;
      var count := lastln;
      CutParts(links, r, line0, curln, count, cacheOn, cacheLp, from, n);
      var after := GetLp(NextLn(to, count));
      var before := GetLp(PrevLn(from, count));   // this lookup last
      Relink(before, after);
      ring := Cut(r, from, n);
      lastln := count - (to - from + 1);
      curln := PrevLn(from, lastln);
    }

    /** lndelete: take lines from..to out of the list, leaving the line before them current. */
    method LnDelete(from: nat, to: nat)
      requires Valid() && 1 <= from <= to <= lastln
      modifies this`curln, this`lastln, this`cacheLp, this`cacheOn, this`ring, this`links, this`ustack, this`log
      modifies links.Keys`next, links.Keys`prev
      ensures Valid() && links.Keys == old(links.Keys)
      ensures |ring| == lastln + 1 && ring == Cut(old(ring), from, to - from + 1)
      ensures Contents() == old(Contents())[..from - 1] + old(Contents())[to..]
      ensures curln == from - 1 && lastln == old(lastln) - (to - from + 1)
      ensures forall i :: 0 <= i < |ring| && ring[i].active ==> ring[i] in old(ring)
    {
      hide Shape, LoggedIn, StoredIn, MarkedIn, Mirrored, Requeue, Texts, Cut, Held, IsRing;
      ghost var h, r, n := links, ring, to - from + 1;
      Now();
      DeleteLogged(h, r, log, saved, ustack, ucurln, ulastln, from, n);
      CutShape(r, from, n);
      TextsCut(scratch.data, r, from, n);
      UPush(UDEL, from, to);
      CutOut(from, to);
      log := log + [Deleted(from, r[from..from + n])];
    }

    /** gettxt: the text of a line. */
    method GetText(l: Line) returns (s: string)
      requires Stored() && l in links
      modifies scratch
      ensures Stored() && scratch.data == old(scratch.data) && s == LineText(scratch.data, l)
    {
      s := scratch.GetText(l.seek, l.len);
    }

    /** The first half of join: the concatenated text of lines from..to. */
    method GatherText(from: nat, to: nat) returns (buf: string)
      requires Valid() && 1 <= from <= to <= lastln
      modifies scratch, this`cacheLp, this`cacheOn
      ensures Valid() && scratch.data == old(scratch.data)
      ensures |ring| == lastln + 1 && buf == Joined(Contents()[from - 1..to])
    {
      hide Linked, Logged, Stored, Marked, Mirrored, Held, IsRing, Texts, Joined, LineText;
      Now();
      ghost var r, d, ts := ring, scratch.data, Contents();
      var ep := GetLp(NextLn(to, lastln));
      var bp := GetLp(from);
      buf := "";
      JoinedNone(ts, from - 1);
      ghost var k := from;
      while bp != ep
        invariant from <= k <= to + 1 && bp == At(r, k) && ep == At(r, to + 1)
        invariant Valid() && scratch.data == d && ring == r
        invariant buf == Joined(ts[from - 1..k - 1])
        decreases 1 + to - k
      {
        assert k <= to;
        NextLine(k);
        var s := GetText(bp);
        TextsAt(d, r, k);
        JoinedMore(ts, from - 1, k - 1);
        buf := buf + s;
        bp := bp.next;
        k := k + 1;
      }
      if k <= to { SameIndex(r, k, if to + 1 == |r| then 0 else to + 1); }
    }

    /** join: replace lines from..to by one line, if it is not too long to store; the old lines
        are deleted either way. */
    method Join(from: nat, to: nat) returns (ok: bool)
      requires Valid() && 1 <= from <= to <= lastln
      modifies this`curln, this`lastln, this`cacheLp, this`cacheOn, this`ring, this`links, this`ustack, this`log, this`lost
      modifies scratch, links.Keys`next, links.Keys`prev
      ensures old(scratch.data) <= scratch.data
      ensures Valid() && fresh(links.Keys - old(links.Keys)) && old(links.Keys) <= links.Keys
      ensures Contents() == old(Contents())[..from - 1] + Fitting([Joined(old(Contents())[from - 1..to])]) + old(Contents())[to..]
      ensures ok == (|Joined(old(Contents())[from - 1..to])| < LINECHARS) && curln == if ok then from else from - 1
      ensures forall i :: 0 <= i < |ring| && ring[i].active ==> ring[i] in old(ring)
      ensures Lost(if ok then 0 else 1)
    {
      hide Texts, Joined, Linked, Logged, Stored, Marked, Held, IsRing, Fitting;
      Now();
      var buf := GatherText(from, to);
      LnDelete(from, to);
      SetCurln(from - 1);
      ok := AddOne(buf);
    }

    /** One line of text added after the current line, if it is not too long. */
    method AddOne(text: string) returns (ok: bool)
      requires Valid()
      modifies this`curln, this`lastln, this`cacheLp, this`cacheOn, this`ring, this`links, this`ustack, this`log, this`lost
      modifies scratch, links.Keys`next, links.Keys`prev
      ensures old(scratch.data) <= scratch.data
      ensures Valid() && fresh(links.Keys - old(links.Keys)) && old(links.Keys) <= links.Keys
      ensures |old(ring)| == old(lastln) + 1 && old(curln) <= old(lastln)
      ensures Contents() == old(Contents())[..old(curln)] + Fitting([text]) + old(Contents())[old(curln)..]
      ensures ok == (|text| < LINECHARS) && curln == old(curln) + if ok then 1 else 0
      ensures forall i :: 0 <= i < |ring| && ring[i].active ==> ring[i] in old(ring)
      ensures Lost(if ok then 0 else 1)
    {
      hide Shape, LoggedIn, StoredIn, MarkedIn, Mirrored, Held, IsRing, Texts, Continues, RunLog, Reads, Linked, Logged, Stored, Marked;
      Now();
      ghost var d := scratch.data;
      ghost var run := Start();
      ok, run := AddText(text, false, run, []);
      assert [] + [text] == [text];
      Built(run, d, if ok then [text] else []);
    }

    /** The body of subst for a line that matches: put other lines in its place. */
    method ReplaceLine(ps: seq<string>) returns (ok: bool)
      requires Valid() && 1 <= curln
      modifies this`curln, this`lastln, this`cacheLp, this`cacheOn, this`ring, this`links, this`ustack, this`log, this`lost
      modifies scratch, links.Keys`next, links.Keys`prev
      ensures old(scratch.data) <= scratch.data
      ensures Valid() && fresh(links.Keys - old(links.Keys)) && old(links.Keys) <= links.Keys && |ring| == lastln + 1
      ensures |old(ring)| == old(lastln) + 1 && lastln == old(lastln) - 1 + |Fitting(ps)|
      ensures Contents() == old(Contents())[..old(curln) - 1] + Fitting(ps) + old(Contents())[old(curln)..]
      ensures curln == old(curln) - 1 + |Fitting(ps)| && ok == (Fitting(ps) == ps)
      ensures forall i :: 0 <= i < |ring| && ring[i].active ==> ring[i] in old(ring)
      ensures Lost(if ok then 0 else 1)
    {
      hide Linked, Logged, Marked, Stored, Texts, Fitting;
      Now();
      ghost var ts, n := Contents(), curln;
      LnDelete(curln, curln);
      assert Contents()[..n - 1] == ts[..n - 1] && Contents()[n - 1..] == ts[n..];
      ok := AddLines(ps);
    }

    /** The loop body of subst: go to the next line, and put what sub makes of it in its place. */
    method SubstNext(sub: string -> Repl) returns (hit: bool, ok: bool, ghost put: seq<string>)
      requires Valid() && curln < lastln
      modifies this`curln, this`lastln, this`cacheLp, this`cacheOn, this`ring, this`links, this`ustack, this`log, this`lost
      modifies scratch, links.Keys`next, links.Keys`prev
      ensures old(scratch.data) <= scratch.data
      ensures Valid() && fresh(links.Keys - old(links.Keys)) && old(links.Keys) <= links.Keys && |ring| == lastln + 1
      ensures |old(ring)| == old(lastln) + 1
      ensures SubstLines(old(Contents()[curln..curln + 1]), sub)
           == Substituted(put, |put|, if hit && ok then 1 else 0, ok)
      ensures !hit ==> ok
      ensures Contents() == old(Contents())[..old(curln)] + put + old(Contents())[old(curln) + 1..]
      ensures lastln == old(lastln) - 1 + |put| && curln == old(curln) + |put|
      ensures forall i :: 0 <= i < |ring| && ring[i].active ==> ring[i] in old(ring)
      ensures Lost(if ok then 0 else 1)
    {
      hide Linked, Logged, Marked, Stored, Texts, Fitting, LineText, IsRing, Held;
      Now();
      ghost var ts := Contents();
      SetCurln(NextLn(curln, lastln));
      var lp := GetLp(curln);
      var s := GetText(lp);
      TextsAt(scratch.data, ring, curln);
      assert ts[curln - 1] == s && ts[..curln - 1] + [s] + ts[curln..] == ts;
      SubstOne(s, sub);
      match sub(s)
      case Same =>
        hit, ok, put := false, true, [s];
      case Lines(first, more) =>
        hit := true;
        ok := ReplaceLine([first] + more);
        put := Fitting([first] + more);
    }

    /** The first lc of lines from + 1..to of what was ts have been gone through: done is in their place. */
    ghost predicate Substituting(ts: seq<string>, r: seq<Line>, from: nat, to: nat, sub: string -> Repl,
                                 lc: nat, done: seq<string>, nsubs: nat)
      reads this, links.Keys`next, links.Keys`prev, scratch, ring`active
    {
      && Valid() && |ring| == lastln + 1 && from + lc <= to <= |ts|
      && lastln == |ts| - lc + |done| && curln == from + |done|
      && Contents() == ts[..from] + done + ts[from + lc..]
      && SubstLines(ts[from..to], sub) == Ahead(done, nsubs, SubstLines(ts[from + lc..to], sub))
      && forall i :: 0 <= i < |ring| && ring[i].active ==> ring[i] in r
    }

    method StartSubst(line1: nat, ghost line2: nat, ghost sub: string -> Repl)
      requires Valid() && 1 <= line1 <= line2 <= lastln
      modifies this`curln
      ensures |ring| == lastln + 1 && Substituting(Contents(), ring, line1 - 1, line2, sub, 0, [], 0)
    {
      hide Linked, Logged, Marked, Stored, Texts, IsRing, Held, SubstLines, Ahead;
      Now();
      SetCurln(PrevLn(line1, lastln));
      ghost var ts := Contents();
      AheadNone(SubstLines(ts[line1 - 1..line2], sub));
      assert ts[..line1 - 1] + [] + ts[line1 - 1..] == ts;
    }

    /** One round of the loop of subst. */
    method SubstRound(sub: string -> Repl, ghost ts: seq<string>, ghost r: seq<Line>, ghost from: nat, ghost to: nat,
                      ghost lc: nat, ghost done: seq<string>, ghost nsubs: nat)
        returns (hit: bool, stored: bool, ghost put: seq<string>)
      requires Substituting(ts, r, from, to, sub, lc, done, nsubs) && from + lc < to
      modifies this`curln, this`lastln, this`cacheLp, this`cacheOn, this`ring, this`links, this`ustack, this`log, this`lost
      modifies scratch, links.Keys`next, links.Keys`prev
      ensures old(scratch.data) <= scratch.data && fresh(links.Keys - old(links.Keys)) && old(links.Keys) <= links.Keys
      ensures Lost(if stored then 0 else 1)
      ensures stored ==> Substituting(ts, r, from, to, sub, lc + 1, done + put, nsubs + if hit then 1 else 0)
      ensures !stored ==> AfterSubst(SubstLines(ts[from..to], sub), ts, r, from, to) && !SubstLines(ts[from..to], sub).ok
    {
      hide Linked, Logged, Marked, Stored, Texts, Fitting, IsRing, Held, SubstLines, Ahead;
      ghost var was := Contents();
      hit, stored, put := SubstNext(sub);
      SubstStep(ts, from, to, sub, lc, done, nsubs, put, hit, stored, was, Contents());
    }

    /** All is done, or as much as could be. */
    ghost predicate AfterSubst(out: Substituted, ts: seq<string>, r: seq<Line>, from: nat, to: nat)
      reads this, links.Keys`next, links.Keys`prev, scratch, ring`active
    {
      && Valid() && |ring| == lastln + 1 && from <= to <= |ts|
      && Contents() == ts[..from] + out.lines + ts[to..] && curln == from + out.cur
      && forall i :: 0 <= i < |ring| && ring[i].active ==> ring[i] in r
    }

    lemma EndSubst(ts: seq<string>, r: seq<Line>, from: nat, to: nat, sub: string -> Repl, done: seq<string>, nsubs: nat)
      requires from <= to && Substituting(ts, r, from, to, sub, to - from, done, nsubs)
      ensures AfterSubst(SubstLines(ts[from..to], sub), ts, r, from, to)
      ensures SubstLines(ts[from..to], sub).ok && SubstLines(ts[from..to], sub).nsubs == nsubs
    {
      hide Linked, Logged, Marked, Stored, Texts, IsRing, Held, SubstLines, Ahead;
      SubstEnd(ts, from, to, sub, done, nsubs);
    }

    /** subst: put what sub makes of each matching line of line1..line2 in its place. It is an
        error for none to match, unless the command is part of a global one. */
    method Subst(line1: nat, line2: nat, sub: string -> Repl, glob: bool) returns (ok: bool)
      requires Valid() && 1 <= line1 <= line2 <= lastln
      modifies this`curln, this`lastln, this`cacheLp, this`cacheOn, this`ring, this`links, this`ustack, this`log, this`lost
      modifies scratch, links.Keys`next, links.Keys`prev
      ensures old(scratch.data) <= scratch.data
      ensures Valid() && fresh(links.Keys - old(links.Keys)) && old(links.Keys) <= links.Keys && |ring| == lastln + 1
      ensures |old(ring)| == old(lastln) + 1
      ensures var ts := old(Contents());
        var out := SubstLines(ts[line1 - 1..line2], sub);
        && Contents() == ts[..line1 - 1] + out.lines + ts[line2..]
        && curln == line1 - 1 + out.cur
        && ok == (out.ok && (out.nsubs > 0 || glob))
      ensures forall i :: 0 <= i < |ring| && ring[i].active ==> ring[i] in old(ring)
      ensures Lost(if SubstLines(old(Contents())[line1 - 1..line2], sub).ok then 0 else 1)
    {
      hide Valid, Texts, Fitting, IsRing, Held, SubstLines, Substituting;
      Now();
      ghost var ts, r := Contents(), ring;
      ghost var done: seq<string> := [];
      var nsubs, lc := 0, 0;
      StartSubst(line1, line2, sub);
      while lc <= line2 - line1
        invariant 0 <= lc <= line2 - line1 + 1
        invariant Substituting(ts, r, line1 - 1, line2, sub, lc, done, nsubs)
        invariant fresh(links.Keys - old(links.Keys)) && old(links.Keys) <= links.Keys
        invariant old(scratch.data) <= scratch.data && lost == old(lost)
        decreases line2 + 1 - line1 - lc
      {
        ghost var put;
        var hit, stored;
        hit, stored, put := SubstRound(sub, ts, r, line1 - 1, line2, lc, done, nsubs);
        if !stored {
          return false;
        }
        done := done + put;
        nsubs := nsubs + if hit then 1 else 0;
        lc := lc + 1;
      }
      EndSubst(ts, r, line1 - 1, line2, sub, done, nsubs);
      ok := nsubs > 0 || glob;
    }

    /** The relinking of a run between b2 and a2 back to between b1 and a1, as undo and move do it. */
    method RelinkMove(b1: Line, a1: Line, b2: Line, a2: Line)
      requires Mirrored() && b1 in links && a1 in links && b2 in links && a2 in links && links[b2].next in links
      requires Requeue(links, b1, links[b2].next)[a2].prev in links
      modifies this`links, links.Keys`next, links.Keys`prev
      ensures Mirrored() && links == UnMove(old(links), b1, a1, b2, a2) && links.Keys == old(links.Keys)
    {
      hide Mirrored, Requeue;
      MirroredAt(b2);
      Relink(b1, b2.next);
      MirroredAt(a2);
      Relink(a2.prev, a1);
      Relink(b2, a2);
    }

    /** Clear the mark a global command left on the lines between b and a. */
    method ClearActive(b: Line, a: Line, ghost k: nat, ghost n: nat)
      requires Linked() && 1 <= k && k + n <= |ring| && b == ring[k - 1] && a == At(ring, k + n)
      modifies links.Keys`active
      ensures forall i :: k <= i < k + n ==> !ring[i].active
      ensures forall l :: l in links && l.active ==> old(l.active)
    {
      hide Linked;
      ghost var i := k;
      NextLine(k - 1);
      var lp := b.next;
      while lp != a
        invariant k <= i <= k + n && lp == At(ring, i)
        invariant forall j :: k <= j < i ==> !ring[j].active
        invariant forall l :: l in links && l.active ==> old(l.active)
        decreases k + n - i
      {
        NextLine(i);
        lp.active := false;
        lp := lp.next;
        i := i + 1;
      }
      DistinctAt(i, k + n);
    }

    lemma DistinctAt(i: nat, j: nat)
      requires Linked() && 1 <= i <= j <= |ring|
      ensures At(ring, i) == At(ring, j) ==> i == j
    {
      hide Mirrored;
      if i < j { SameIndex(ring, i, if j == |ring| then 0 else j); }
    }

    /** The lines around those to move, and around the place to move them to. The cache is left at the
        first of these, which the move leaves where it is. */
    method FindEnds(line1: nat, line2: nat, num: nat) returns (b1: Line, a1: Line, b2: Line, a2: Line)
      requires Linked() && 1 <= line1 <= line2 <= lastln && num <= lastln && |ring| == lastln + 1
      modifies this`cacheLp, this`cacheOn
      ensures Linked() && cacheOn == if num < line1 then num else line1 - 1
      ensures b1 == ring[line1 - 1] && a1 == At(ring, line2 + 1) && b2 == ring[num] && a2 == At(ring, num + 1)
    {
      hide IsRing, Mirrored;
      var n, p := NextLn(line2, lastln), PrevLn(line1, lastln);
      a1 := GetLp(n);
      if num < line1 {
        b1 := GetLp(p);
        b2 := GetLp(num);   // this lookup last
      } else {
        b2 := GetLp(num);
        b1 := GetLp(p);     // this lookup last
      }
      NextLine(num);
      a2 := b2.next;
    }

    /** The relinking part of move, and the line left current. */
    method MoveOut(line1: nat, line2: nat, num: nat) returns (b2: Line, a2: Line)
      requires Linked() && 1 <= line1 <= line2 <= lastln && num <= lastln
      requires num + 1 < line1 || line2 < num
      requires |ring| == lastln + 1 && Ends(links, MoveChange(ring, line1, line2 - line1 + 1, num))
      modifies this`curln, this`cacheLp, this`cacheOn, this`ring, this`links
      modifies links.Keys`next, links.Keys`prev
      ensures Linked() && links.Keys == old(links.Keys)
      ensures links == UndoLinks(old(links), MoveChange(old(ring), line1, line2 - line1 + 1, num))
      ensures ring == MovedRingOf(old(ring), line1, line2 - line1 + 1, num)
      ensures b2 == old(ring[num]) && a2 == old(At(ring, num + 1))
      ensures curln == num + (if num < line1 then line2 - line1 + 1 else 0)
    {
      hide Mirrored, IsRing, MovedRingOf, CanUndo, UnMove, Requeue, UndoLinks, Ends;
      ghost var h, r, m := links, ring, line2 - line1 + 1;
      MoveShape(r, line1, m, num);
      MoveLands(h, r, line1, m, num);
      var b1, a1;
      b1, a1, b2, a2 := FindEnds(line1, line2, num);
      RelinkMove(b2, a2, b1, a1);
      ring := MovedRingOf(r, line1, m, num);
      curln := num + if num < line1 then line2 - line1 + 1 else 0;
    }

    /** move, when there is something to do, up to clearing marks. */
    method MoveAway(line1: nat, line2: nat, num: nat) returns (b2: Line, a2: Line)
      requires Valid() && 1 <= line1 <= line2 <= lastln && num <= lastln
      requires |ring| == lastln + 1 && (num + 1 < line1 || line2 < num)
      modifies this`curln, this`cacheLp, this`cacheOn, this`ring, this`links, this`ustack, this`log
      modifies links.Keys`next, links.Keys`prev
      ensures Valid() && links.Keys == old(links.Keys)
      ensures ring == MovedRingOf(old(ring), line1, line2 - line1 + 1, num)
      ensures curln == if num < line1 then num + line2 - line1 + 1 else num
      ensures b2 == old(ring[num]) && a2 == old(At(ring, num + 1))
    {
      hide Linked, LoggedIn, MarkedIn, StoredIn, IsRing, MovedRingOf, UndoLinks, Ends;
      ghost var r, m := ring, line2 - line1 + 1;
      ghost var d := MoveChange(r, line1, m, num);
      MoveLogged(links, r, log, saved, ustack, ucurln, ulastln, line1, m, num);
      PushMove(line1, line2, num);
      b2, a2 := MoveOut(line1, line2, num);
      log := log + [Inverse(d)];
    }

    /** The two undo entries of a move. */
    method PushMove(line1: nat, line2: nat, num: nat)
      requires Linked() && 1 <= line1 <= line2 <= lastln && num <= lastln
      requires |ring| == lastln + 1 && (num + 1 < line1 || line2 < num)
      modifies this`cacheLp, this`cacheOn, this`ustack
      ensures Linked()
      ensures var d := MoveChange(ring, line1, line2 - line1 + 1, num);
        ustack == old(ustack) + [Entry(UMOV, d.b2, d.a2), Entry(UMOV, d.b1, d.a1)]
    {
      hide Linked, IsRing;
      ghost var was, d := ustack, MoveChange(ring, line1, line2 - line1 + 1, num);
      UPush(UMOV, PrevLn(line1, lastln), NextLn(line2, lastln));
      UPush(UMOV, num, NextLn(num, lastln));
      assert ustack == was + [Entry(UMOV, d.b2, d.a2), Entry(UMOV, d.b1, d.a1)];
    }

    /** move, up to clearing marks; b2 and a2 are then the lines around the moved ones. */
    method Relocate(line1: nat, line2: nat, num: nat) returns (b2: Line, a2: Line)
      requires Valid() && 1 <= line1 <= line2 <= lastln && num <= lastln && !(line1 <= num < line2)
      modifies this`curln, this`cacheLp, this`cacheOn, this`ring, this`links, this`ustack, this`log
      modifies links.Keys`next, links.Keys`prev
      ensures Valid() && links.Keys == old(links.Keys) && |ring| == lastln + 1 && |old(ring)| == lastln + 1
      ensures ring == MovedRingOf(old(ring), line1, line2 - line1 + 1, num)
      ensures curln == if num < line1 then num + line2 - line1 + 1 else num
      ensures var k := MoveTo(line1, line2 - line1 + 1, num);
        k >= 1 && k + line2 - line1 == curln && b2 == ring[k - 1] && a2 == At(ring, curln + 1)
      ensures forall i :: 0 <= i < |ring| ==> ring[i] in old(ring)
    {
      hide Linked, Logged, Marked, Stored, IsRing, Held, MovedRingOf;
      ghost var r, m := ring, line2 - line1 + 1;
      Now();
      if num == line1 - 1 || num == line2 {
        MoveStays(r, line1, m, num);
        a2 := GetLp(NextLn(line2, lastln));
        b2 := GetLp(PrevLn(line1, lastln));
        SetCurln(line2);
      } else {
        MoveShape(r, line1, m, num);
        b2, a2 := MoveAway(line1, line2, num);
      }
    }

    /** move: move lines line1..line2 to after line num, which is not inside them. Moved lines lose
        the mark of a global command, if the move is part of one. */
    method Move(line1: nat, line2: nat, num: nat, glob: bool)
      requires Valid() && 1 <= line1 <= line2 <= lastln && num <= lastln && !(line1 <= num < line2)
      modifies this`curln, this`cacheLp, this`cacheOn, this`ring, this`links, this`ustack, this`log
      modifies links.Keys`next, links.Keys`prev, links.Keys`active
      ensures Valid() && links.Keys == old(links.Keys) && |ring| == lastln + 1 && |old(ring)| == lastln + 1
      ensures Contents() == MovedText(old(Contents()), line1, line2, num)
      ensures curln == if num < line1 then num + line2 - line1 + 1 else num
      ensures forall i :: 0 <= i < |ring| ==> ring[i] in old(ring)
      ensures forall l :: l in links && l.active ==> old(l.active)
      ensures glob ==> forall i :: curln - (line2 - line1) <= i <= curln ==> !ring[i].active
    {
      hide Linked, Logged, Marked, Stored, Texts, IsRing, Held, MovedRingOf, MovedText;
      ghost var r, m := ring, line2 - line1 + 1;
      Now();
      TextsMoved(scratch.data, r, line1, m, num);
      var b2, a2 := Relocate(line1, line2, num);
      if glob {
        ClearActive(b2, a2, MoveTo(line1, m, num), m);
      }
    }

    /** The loop body shared by both loops of transfer: a copy of line nl, added and logged. */
    method CopyLine(nl: nat, up: bool, ghost run: Run, ghost ts: seq<string>) returns (ghost more: Run)
      requires Valid() && Building(run) && log == RunLog(run) && up == (run.seg != [])
      requires Reads(scratch.data, run.seg, ts) && nl <= lastln && |ring| == lastln + 1
      modifies this`curln, this`lastln, this`cacheLp, this`cacheOn, this`ring, this`links, this`ustack, this`log
      modifies links.Keys`next, links.Keys`prev
      ensures Valid() && Building(more) && log == RunLog(more)
      ensures fresh(links.Keys - old(links.Keys)) && old(links.Keys) <= links.Keys
      ensures |more.seg| == |run.seg| + 1 && more == run.(seg := run.seg + [more.seg[|run.seg|]])
      ensures Reads(scratch.data, more.seg, ts + [LineText(scratch.data, old(ring[nl]))])
      ensures lastln == old(lastln) + 1 && |ring| == lastln + 1
    {
      hide Continues, RunLog, Linked, LoggedIn, Pending, Target, Marked, Stored, Splice, Insert, Reads, LineText;
      Now();
      ghost var h, r, here, text := links, ring, curln, LineText(scratch.data, ring[nl]);
      var lp := Duplicate(nl);
      QueuedPending(run, h, r, here, saved, lp, log, ustack, ucurln, ulastln);
      PendingContinues(run, lp, links, ring, curln, saved, log, ustack);
      ReadsMore(scratch.data, scratch.data, run.seg, lp, ts, text);
      more := run.(seg := run.seg + [lp]);
      LogLine(lp, up, run);
      Now();
    }

    /** lpdup and lpqueue: a node with the text of line nl, but not its mark, linked in after the
        current line. */
    method Duplicate(nl: nat) returns (lp: Line)
      requires Linked() && Stored() && Marked() && nl <= lastln
      modifies this`curln, this`lastln, this`cacheLp, this`cacheOn, this`ring, this`links
      modifies links.Keys`next, links.Keys`prev
      ensures Linked() && Stored() && Marked() && nl < |old(ring)|
      ensures fresh(lp) && !lp.active && lp !in old(links) && links.Keys == old(links.Keys) + {lp}
      ensures LineText(scratch.data, lp) == LineText(scratch.data, old(ring[nl])) && lp.seek + lp.len <= |scratch.data|
      ensures curln == old(curln) + 1 && lastln == old(lastln) + 1
      ensures old(curln < |ring| && ring[curln] in links && At(ring, curln + 1) in links)
      ensures ring == Splice(old(ring), curln, [lp]) && ring[curln] == lp
      ensures links == Insert(old(links), lp, old(ring[curln]), old(At(ring, curln + 1)))
    {
      hide Linked, MarkedIn, StoredIn, Splice, Insert;
      ghost var nodes := links.Keys;
      var l := GetLp(nl);
      Known(nl);
      lp := new Line(l.seek, l.len);
      StoredAt(scratch.data, nodes, l);
      LpQueue(lp);
      StoredMore(scratch.data, scratch.data, nodes, lp);
      MarkedMore(mark, markno, nodes, lp);
    }

    lemma Known(k: nat)
      requires Linked() && k <= lastln
      ensures k < |ring| && ring[k] in links
    {
      hide IsRing;
      RingAt(links, ring, k);
    }

    /** Line k of the buffer a run is being added to, when it comes before the run or after it. */
    lemma OldLine(run: Run, k: nat)
      requires Building(run) && k < |run.r0|
      ensures k < run.at ==> k < |ring| && ring[k] == run.r0[k]
      ensures k >= run.at ==> k + |run.seg| < |ring| && ring[k + |run.seg|] == run.r0[k]
    {
      hide Undoable;
      SpliceIndex(run.r0, run.at, run.seg, if k < run.at then k else k + |run.seg|);
    }

    /** A run of copies of lines line1.. of the buffer, being added after line num of it. */
    ghost predicate Copying(run: Run, ts: seq<string>, r: seq<Line>, line1: nat, num: nat, up: bool)
      requires line1 >= 1
      reads this, links.Keys`next, links.Keys`prev, scratch, run.seg`active
    {
      var m := |run.seg|;
      && Valid() && Building(run) && log == RunLog(run) && run.r0 == r && run.at == num + 1
      && up == (m > 0) && |ring| == lastln + 1 && |r| == |ts| + 1 && lastln == |ts| + m
      && line1 - 1 + m <= |ts| && ts == Texts(scratch.data, r[1..])
      && Reads(scratch.data, run.seg, ts[line1 - 1..line1 - 1 + m])
    }

    /** One more line of the original buffer copied; nl is where it is now. */
    method CopyNext(nl: nat, up: bool, ghost run: Run, ghost ts: seq<string>, ghost r: seq<Line>,
                    ghost line1: nat, ghost num: nat) returns (ghost more: Run)
      requires line1 >= 1 && Copying(run, ts, r, line1, num, up) && line1 + |run.seg| < |r|
      requires nl == line1 + |run.seg| + if line1 + |run.seg| <= num then 0 else |run.seg|
      modifies this`curln, this`lastln, this`cacheLp, this`cacheOn, this`ring, this`links, this`ustack, this`log
      modifies links.Keys`next, links.Keys`prev
      ensures Copying(more, ts, r, line1, num, true) && |more.seg| == |run.seg| + 1
      ensures fresh(links.Keys - old(links.Keys)) && old(links.Keys) <= links.Keys
    {
      hide Linked, Logged, Marked, Stored, Texts, Held, IsRing, Reads, RunLog, Continues;
      ghost var m := |run.seg|;
      OldLine(run, line1 + m);
      TextsAt(scratch.data, r, line1 + m);
      assert ts[line1 - 1..line1 + m] == ts[line1 - 1..line1 - 1 + m] + [ts[line1 + m - 1]];
      more := CopyLine(nl, up, run, ts[line1 - 1..line1 - 1 + m]);
    }

    method StartCopy(ghost line1: nat, num: nat) returns (ghost run: Run)
      requires Valid() && 1 <= line1 <= lastln && num <= lastln
      modifies this`curln
      ensures |ring| == lastln + 1 && Copying(run, Contents(), ring, line1, num, false) && run.seg == []
    {
      hide Linked, Logged, Marked, Stored, Texts, Held, IsRing, Reads, RunLog, Continues;
      Now();
      SetCurln(num);
      run := Start();
      assert Contents()[line1 - 1..line1 - 1] == [];
    }

    lemma Copied(run: Run, ts: seq<string>, r: seq<Line>, line1: nat, num: nat, up: bool)
      requires line1 >= 1 && Copying(run, ts, r, line1, num, up) && Held(scratch.data, r) && num <= |ts|
      ensures Valid() && |ring| == lastln + 1 && curln == num + |run.seg| && line1 - 1 + |run.seg| <= |ts|
      ensures Contents() == ts[..num] + ts[line1 - 1..line1 - 1 + |run.seg|] + ts[num..]
      ensures forall i :: 0 <= i < |ring| && ring[i].active ==> ring[i] in r
    {
      hide Linked, Logged, Marked, Stored, Held, IsRing, Reads, RunLog, Continues;
      Built(run, scratch.data, ts[line1 - 1..line1 - 1 + |run.seg|]);
    }

    /** transfer: copy lines line1..line2 to after line num, which may be one of them. */
    method Transfer(line1: nat, line2: nat, num: nat)
      requires Valid() && 1 <= line1 <= line2 <= lastln && num <= lastln
      modifies this`curln, this`lastln, this`cacheLp, this`cacheOn, this`ring, this`links, this`ustack, this`log
      modifies links.Keys`next, links.Keys`prev
      ensures Valid() && fresh(links.Keys - old(links.Keys)) && old(links.Keys) <= links.Keys && |ring| == lastln + 1
      ensures |old(ring)| == old(lastln) + 1
      ensures Contents() == old(Contents())[..num] + old(Contents())[line1 - 1..line2] + old(Contents())[num..]
      ensures curln == num + line2 - line1 + 1
      ensures forall i :: 0 <= i < |ring| && ring[i].active ==> ring[i] in old(ring)
    {
      hide Valid, Copying, Building, Texts, Held, IsRing, Reads, RunLog;
      Now();
      ghost var ts, r := Contents(), ring;
      var mid := if num < line2 then num else line2;
      ghost var run := StartCopy(line1, num);
      var nt, nl, up := 0, line1, false;
      while nl <= mid
        invariant nl == line1 + nt && |run.seg| == nt && (nt == 0 || nl <= mid + 1)
        invariant Copying(run, ts, r, line1, num, up)
        invariant fresh(links.Keys - old(links.Keys)) && old(links.Keys) <= links.Keys
        decreases mid + 1 - nl
      {
        run := CopyNext(nl, up, run, ts, r, line1, num);
        nl, nt, up := nl + 1, nt + 1, true;
      }
      nl := nl + nt;
      var lc := line2 + nt;
      while nl <= lc
        invariant nl == line1 + |run.seg| + |run.seg| && lc == line2 + |run.seg| && line1 + |run.seg| <= line2 + 1
        invariant nl <= lc ==> num < line1 + |run.seg|
        invariant Copying(run, ts, r, line1, num, up)
        invariant fresh(links.Keys - old(links.Keys)) && old(links.Keys) <= links.Keys
        decreases line2 + 1 - line1 - |run.seg|
      {
        run := CopyNext(nl, up, run, ts, r, line1, num);
        nl, lc, up := nl + 2, lc + 1, true;
      }
      Copied(run, ts, r, line1, num, up);
    }

    /** The relinking undo does for its entry n - 1, and for n - 2 with it if it is a move. */
    method RelinkEntry(n: nat, ghost c: Change<Line>) returns (m: nat)
      requires Mirrored() && 0 < n <= |ustack| && Ends(links, c) && |c.seg| > 0
      requires c.Added? ==> ustack[n - 1] == Entry(UADD, c.seg[0], c.seg[|c.seg| - 1])
      requires c.Deleted? ==> ustack[n - 1] == Entry(UDEL, c.seg[0], c.seg[|c.seg| - 1])
      requires c.Moved? ==> n >= 2 && ustack[n - 1].kind in {UMOV, VMOV}
      requires c.Moved? ==> ustack[n - 1].h == c.b2 && ustack[n - 1].t == c.a2
      requires c.Moved? ==> ustack[n - 2].h == c.b1 && ustack[n - 2].t == c.a1
      modifies this`links, links.Keys`next, links.Keys`prev
      ensures Mirrored() && links == UndoLinks(old(links), c) && links.Keys == old(links.Keys)
      ensures m == n - Width(c)
    {
      hide Mirrored, Requeue, UnMove;
      var e := ustack[n - 1];
      match e.kind
      case UADD =>
        MirroredAt(e.h);
        MirroredAt(e.t);
        Relink(e.h.prev, e.t.next);
        m := n - 1;
      case UDEL =>
        MirroredAt(e.h);
        Relink(e.h.prev, e.h);
        MirroredAt(e.t);
        Relink(e.t, e.t.next);
        m := n - 1;
      case UMOV =>
        RelinkMove(ustack[n - 2].h, ustack[n - 2].t, e.h, e.t);
        m := n - 2;
      case VMOV =>
        RelinkMove(ustack[n - 2].h, ustack[n - 2].t, e.h, e.t);
        m := n - 2;
    }

    /** The first loop of undo: undo and toggle every entry, last to first. */
    method UndoEntries(ghost top: seq<Line>)
      requires Mirrored() && Logged() && top == ring
      modifies this`links, this`ustack, links.Keys`next, links.Keys`prev
      ensures Mirrored() && links.Keys == old(links.Keys)
      ensures Halfway(links, saved, ustack, 0, [], Reversed(log), saved, top)
    {
      hide Mirrored, Halfway, Encodes, Stores, Ends, UndoLinks, UndoRing, Fits;
      var n := |ustack|;
      ghost var q, todo, done := ring, log, [];
      StartUndo(links, ring, ustack, log, saved);
      while n > 0
        invariant 0 <= n <= |ustack| && Mirrored() && links.Keys == old(links.Keys)
        invariant Halfway(links, q, ustack, n, todo, done, saved, top)
        invariant Reversed(log) == done + Reversed(todo)
      {
        n, q, todo, done := UndoEntry(n, q, todo, done, top);
      }
      EndUndo(links, q, ustack, todo, done, saved, top);
      assert done + Reversed([]) == done;
    }

    /** One round of it. */
    method UndoEntry(n0: nat, ghost q0: seq<Line>, ghost todo0: seq<Change<Line>>, ghost done0: seq<Change<Line>>,
                     ghost top: seq<Line>)
        returns (n: nat, ghost q: seq<Line>, ghost todo: seq<Change<Line>>, ghost done: seq<Change<Line>>)
      requires 0 < n0 <= |ustack| && Mirrored() && Halfway(links, q0, ustack, n0, todo0, done0, saved, top)
      modifies this`links, this`ustack, links.Keys`next, links.Keys`prev
      ensures n < n0 && |ustack| == |old(ustack)| && Mirrored() && links.Keys == old(links.Keys)
      ensures Halfway(links, q, ustack, n, todo, done, saved, top)
      ensures done + Reversed(todo) == done0 + Reversed(todo0)
    {
      hide Mirrored, Halfway, Encodes, Stores, Ends, UndoLinks, UndoRing, Fits;
      Encoded(links, q0, ustack, n0, todo0, done0, saved, top);
      TopEntries(ustack, n0, todo0);
      ghost var c := todo0[|todo0| - 1];
      HalfwayStep(links, q0, ustack, n0, todo0, done0, saved, top);
      n := RelinkEntry(n0, c);
      ustack := Toggled(ustack, n);
      q, todo, done := UndoRing(q0, c), todo0[..|todo0| - 1], done0 + [Inverse(c)];
    }

    /** The second loop of undo: turn the stack around, by swapping. */
    method ReverseStack()
      modifies this`ustack
      ensures ustack == Rev(old(ustack))
    {
      var u, n := |ustack|, |ustack|;
      ghost var was := ustack;
      while n > (u + 1) / 2
        invariant u / 2 <= n <= u == |ustack|
        invariant forall i :: n <= i < u ==> ustack[i] == was[u - 1 - i]
        invariant forall i :: 0 <= i < u - n ==> ustack[i] == was[u - 1 - i]
        invariant forall i :: u - n <= i < n ==> ustack[i] == was[i]
      {
        n := n - 1;
        ustack := ustack[n := ustack[u - 1 - n]][u - 1 - n := ustack[n]];
      }
    }

    lemma BothOff()
      requires Valid()
      ensures ucurln >= -1 && (ucurln == -1 <==> ulastln == -1)
    {
    }

    /** The last step of undo: exchange the line numbers with those saved. */
    method SwapLines(ghost back: seq<Change<Line>>)
      requires Mirrored() && ucurln >= 0 && ulastln >= 0
      requires Shape(links, saved, line0, ucurln, ulastln, cacheOn, cacheLp)
      requires LoggedIn(links, saved, back, ring, ustack, curln, lastln)
      modifies this`curln, this`lastln, this`ucurln, this`ulastln, this`ring, this`saved, this`log
      ensures Linked() && Logged()
      ensures ring == old(saved) && saved == old(ring) && log == back
      ensures curln == old(ucurln) && ucurln == old(curln) && lastln == old(ulastln) && ulastln == old(lastln)
    {
      hide Mirrored, LoggedIn, Shape;
      var ocurln, olastln := curln, lastln;
      log := back;
      ring, saved := saved, ring;
      curln, ucurln := ucurln, ocurln;
      lastln, ulastln := ulastln, olastln;
    }

    /** undo, up to clearing marks. */
    method TakeBack()
      requires Valid() && ucurln != -1
      modifies this`curln, this`lastln, this`cacheLp, this`cacheOn, this`ring, this`links, this`ustack, this`log
      modifies this`saved, this`ucurln, this`ulastln, links.Keys`next, links.Keys`prev
      ensures Valid() && links.Keys == old(links.Keys)
      ensures ring == old(saved) && saved == old(ring) && log == Reversed(old(log))
      ensures curln == old(ucurln) && ucurln == old(curln) && lastln == old(ulastln) && ulastln == old(lastln)
    {
      hide Mirrored, LoggedIn, StoredIn, MarkedIn, Halfway, Shape, Rev, Reversed, Held;
      Now();
      ghost var h, r, was, back := links, ring, ustack, Reversed(log);
      var root := GetLp(0);   // this lookup last
      UndoEntries(r);
      UndoneLogged(h, r, log, saved, was, ucurln, ulastln, links, saved, ustack, curln, lastln);
      ReverseStack();
      SwapLines(back);
    }

    /** undo: take back every change since the stack was last reset, or since the last undo; what
        is taken back can be undone in turn. */
    method Undo(glob: bool) returns (ok: bool)
      requires Valid()
      modifies this`curln, this`lastln, this`cacheLp, this`cacheOn, this`ring, this`links, this`ustack, this`log
      modifies this`saved, this`ucurln, this`ulastln, links.Keys`next, links.Keys`prev, links.Keys`active
      ensures Valid() && links.Keys == old(links.Keys)
      ensures ok == (old(ucurln) != -1)
      ensures !ok ==> ring == old(ring) && curln == old(curln) && log == old(log)
      ensures !ok ==> saved == old(saved) && ucurln == old(ucurln)
      ensures ok ==> ring == old(saved) && saved == old(ring) && log == Reversed(old(log))
      ensures ok ==> curln == old(ucurln) && ucurln == old(curln) && lastln == old(ulastln) && ulastln == old(lastln)
      ensures forall l :: l in links && l.active ==> old(l.active)
      ensures |ring| == lastln + 1
      ensures ok && glob ==> forall i :: 1 <= i <= lastln ==> !ring[i].active
    {
      hide Mirrored, Linked, LoggedIn, Marked, Stored, Reversed, IsRing;
      Now();
      BothOff();
      if ucurln == -1 || ulastln == -1 {
        return false;
      }
      TakeBack();
      Now();
      if glob {
        ClearActive(line0, line0, 1, lastln);
      }
      ok := true;
    }

    /** clrmark: take every mark off a line. */
    method ClrMark(lp: Line)
      requires |mark| == MAXMARK && markno == Count(mark)
      modifies this`mark, this`markno
      ensures mark == Unmarked(old(mark), lp) && markno == Count(mark)
    {
      ghost var m0 := mark;
      if markno > 0 {
        var i := 0;
        while i < MAXMARK
          invariant 0 <= i <= MAXMARK == |mark| && markno == Count(mark)
          invariant forall j :: 0 <= j < i ==> mark[j] == if m0[j] == lp then null else m0[j]
          invariant forall j :: i <= j < MAXMARK ==> mark[j] == m0[j]
        {
          if mark[i] == lp {
            CountUpdate(mark, i, null);
            CountPositive(mark, i);
            mark := mark[i := null];
            markno := markno - 1;
          }
          i := i + 1;
        }
      } else {
        forall i | 0 <= i < MAXMARK ensures mark[i] == null {
          if mark[i] != null { CountPositive(mark, i); }
        }
      }
    }

    /** free: only a node that is allocated and not in the buffer may be freed. */
    ghost method Free(lp: Line)
      requires lp in links && lp !in ring
      modifies this`links
      ensures links.Keys == old(links.Keys) - {lp} && Fewer(links, old(links))
    {
      links := links - {lp};
    }

    /** The inner loop of ureset: free the nodes from first to last, and the marks on them. */
    method FreeRun(first: Line, last: Line, ghost h: Links<Line>, ghost seg: seq<Line>, ghost m0: seq<Line?>)
      requires Holds(h)
      requires Chain(h, seg) && |seg| > 0 && first == seg[0] && last == seg[|seg| - 1] && last in h && h[last].next !in seg
      requires forall x :: x in seg ==> x in links && x !in ring
      requires |mark| == MAXMARK && markno == Count(mark) && Cleared(mark, m0, links.Keys)
      modifies this`links, this`mark, this`markno
      ensures links.Keys == old(links.Keys) - Elems(seg) && Fewer(links, old(links))
      ensures |mark| == MAXMARK && markno == Count(mark) && Cleared(mark, m0, links.Keys)
    {
      hide Chain, Count, Unmarked, Holds, Cleared;
      ghost var g, j := links, 0;
      HeldAt(h, seg, |seg| - 1);
      var ep := last.next;
      var lp := first;
      while lp != ep
        invariant 0 <= j <= |seg| && lp == if j < |seg| then seg[j] else ep
        invariant links.Keys == g.Keys - Elems(seg[..j]) && Fewer(links, g)
        invariant |mark| == MAXMARK && markno == Count(mark) && Cleared(mark, m0, links.Keys)
        decreases |seg| - j
      {
        HeldAt(h, seg, j);
        RunLeft(seg, j);
        ghost var was, keys := mark, links.Keys;
        ClrMark(lp);
        ClearedMore(was, m0, keys, lp);
        var tl := lp.next;
        Free(lp);
        lp := tl;
        j := j + 1;
      }
      assert seg[..|seg|] == seg;
    }

    /** ureset: free what the undo stack holds of deleted lines, and start a new one. */
    method UReset()
      requires Valid()
      modifies this`links, this`mark, this`markno, this`ustack, this`log, this`saved, this`ucurln, this`ulastln
      ensures Valid() && ustack == [] && log == [] && saved == ring && ucurln == curln && ulastln == lastln
      ensures links.Keys == Elems(ring) && Fewer(links, old(links))
      ensures Cleared(mark, old(mark), links.Keys)
      ensures Allocated() == Elems(ring) + lost
    {
      hide LoggedIn, Freeing, Shape, Holds, Chain, Count, IsRing, Cleared, MarkedIn, StoredIn, Dead, Elems;
      ghost var h, todo, half, m0 := links, log, false, mark;
      StartFreeing(h, ring, log, saved, ustack, ucurln, ulastln);
      ClearedStart(mark, markno, links.Keys);
      var n := |ustack|;
      while n > 0
        invariant 0 <= n <= |ustack| && Holds(h) && Fewer(links, h)
        invariant LoggedIn(h, ring, log, saved, ustack, ucurln, ulastln)
        invariant Freeing(h, links, ring, log, ustack, n, todo, half) && (n == 0 ==> !half)
        invariant |mark| == MAXMARK && markno == Count(mark) && Cleared(mark, m0, links.Keys)
      {
        n := n - 1;
        ghost var g := links;
        if half {
          FreedMove(h, g, ring, log, ustack, n + 1, todo);
        } else {
          NextFreed(h, g, ring, log, saved, ustack, ucurln, ulastln, n + 1, todo);
        }
        ghost var c, rest := todo[|todo| - 1], todo[..|todo| - 1];
        if ustack[n].kind == UDEL {
          FreeRun(ustack[n].h, ustack[n].t, h, c.seg, m0);
        }
        if half {
          todo, half := rest, false;
        } else {
          FreedEntry(h, g, links, ring, log, ustack, n + 1, todo);
          todo, half := if c.Moved? then todo else rest, c.Moved?;
        }
      }
      FewerParts(h, links, scratch.data);
      DoneFreeing(h, links, ring, line0, log, ustack, todo, curln, lastln, cacheOn, cacheLp);
      ClearedEnd(mark, m0, markno, links.Keys);
      ClearLog();
    }

    /** The end of ureset: a new log. */
    method ClearLog()
      requires Linked() && Stored() && Marked() && LoggedIn(links, ring, [], ring, [], curln, lastln)
      modifies this`ustack, this`log, this`saved, this`ucurln, this`ulastln
      ensures Valid() && ustack == [] && log == [] && saved == ring && ucurln == curln && ulastln == lastln
    {
      hide Linked, Stored, Marked, LoggedIn, IsRing;
      ustack, log, saved := [], [], ring;
      ucurln := curln;
      ulastln := lastln;
    }

    /** The lines undo would bring back are allocated and stored, like those of the buffer. */
    lemma SavedNow()
      requires Valid()
      ensures |saved| > 0 && Held(scratch.data, saved)
    {
      hide IsRing, Encodes, Settled, Dead;
      BaseRoot(links, ring, log, saved);
      Accounting(links, ring, log, saved);
      forall i | 0 <= i < |saved| ensures saved[i].seek + saved[i].len <= |scratch.data| {
        assert saved[i] in Elems(saved);
      }
    }

    /** putmark: put mark c on a line. */
    method PutMark(c: char, lp: Line) returns (ok: bool)
      requires Marked() && lp in links
      modifies this`mark, this`markno
      ensures Marked() && ok == ('a' <= c <= 'z')
      ensures mark == if ok then old(mark)[c as int - 'a' as int := lp] else old(mark)
    {
      if !('a' <= c <= 'z') {
        return false;
      }
      var i := c as int - 'a' as int;
      CountUpdate(mark, i, lp);
      if mark[i] == null {
        markno := markno + 1;
      }
      mark := mark[i := lp];
      ok := true;
    }

    /** getmark: the number of the line mark c is on; an error (-2) if there is none in the buffer,
        unless the buffer is empty. */
    method GetMark(c: char) returns (n: int)
      requires Valid()
      ensures !('a' <= c <= 'z') ==> n == -2
      ensures 'a' <= c <= 'z' ==> |mark| == MAXMARK && |ring| == lastln + 1
      ensures 'a' <= c <= 'z' ==>
        var l := mark[c as int - 'a' as int];
        && (forall i :: 0 <= i <= lastln && ring[i] == l ==> n == i)
        && ((forall i :: 0 <= i <= lastln ==> ring[i] != l) ==> n == if lastln > 0 then -2 else 0)
    {
      hide IsRing, LoggedIn, StoredIn, Count;
      if !('a' <= c <= 'z') {
        return -2;
      }
      n := GetAddr(mark[c as int - 'a' as int]);
    }

    /** The search doglob starts each round with: the first line carrying the mark, or lastln + 1. */
    method FindActive() returns (lc: nat, lp: Line)
      requires Valid()
      modifies this`cacheLp, this`cacheOn
      ensures Valid() && |ring| == lastln + 1 && 1 <= lc <= lastln + 1
      ensures lc <= lastln ==> lp == ring[lc] && lp.active && lp in links
      ensures forall i :: 1 <= i < lc ==> !ring[i].active
    {
      hide IsRing, Holds, Logged, Stored, Marked, Linked;
      Now();
      lc := 1;
      lp := GetLp(lc);
      while lc <= lastln
        invariant Valid() && 1 <= lc <= lastln + 1 && (lc <= lastln ==> lp == ring[lc])
        invariant forall i :: 1 <= i < lc ==> !ring[i].active
      {
        NextLine(lc);
        if lp.active {
          return;
        }
        lc := lc + 1;
        lp := lp.next;
      }
    }

    /** ckglob, once the pattern is read: mark the lines of line1..line2 that pick accepts, and
        take the mark off all others. */
    method MarkLines(line1: nat, line2: nat, pick: string -> bool)
      requires Valid() && 1 <= line1 <= line2 <= lastln
      modifies this`cacheLp, this`cacheOn, scratch, links.Keys`active
      ensures Valid() && |ring| == lastln + 1 && scratch.data == old(scratch.data)
      ensures forall i :: 1 <= i <= lastln ==> (ring[i].active <==> line1 <= i <= line2 && pick(Contents()[i - 1]))
    {
      hide IsRing, Holds, Logged, StoredIn, Marked, Linked, Texts, LineText;
      Now();
      ghost var d, ts := scratch.data, Contents();
      var n := 1;
      var lp := GetLp(n);
      while n <= lastln
        invariant 1 <= n <= lastln + 1 && (n <= lastln ==> lp == ring[n])
        invariant Valid() && scratch.data == d
        invariant forall i :: 1 <= i < n ==> (ring[i].active <==> line1 <= i <= line2 && pick(ts[i - 1]))
      {
        NextLine(n);
        var s := GetText(lp);
        TextsAt(d, ring, n);
        Others(n);
        lp.active := line1 <= n <= line2 && pick(s);
        lp := lp.next;
        n := n + 1;
      }
    }

    lemma Others(n: nat)
      requires Linked() && n < |ring|
      ensures forall i :: 0 <= i < |ring| && i != n ==> ring[i] != ring[n]
    {
      forall i | 0 <= i < |ring| && i != n ensures ring[i] != ring[n] {
        SameIndex(ring, i, n);
      }
    }
  }
}
