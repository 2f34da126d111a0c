/** dd's copying: reads of any size, a conversion that keeps part of a record, and the output not yet
    written, in its buffers between reads, and writes that may be short. */
module Copier {
  import opened Basics
  import opened Records

  /** The conversion function in force. */
  datatype Conv = Def | ToRecords | ToLines

  /** What a conversion table makes of data; no table (empty), nothing. */
  function Translate(s: Bytes, ctab: seq<Byte>): (t: Bytes)
    requires ctab == [] || |ctab| == 256
    ensures |t| == |s|
  {
    if ctab == [] then s else seq(|s|, i requires 0 <= i < |s| => ctab[s[i]])
  }

  lemma TranslateConcat(a: Bytes, b: Bytes, ctab: seq<Byte>)
    requires ctab == [] || |ctab| == 256
    ensures Translate(a + b, ctab) == Translate(a, ctab) + Translate(b, ctab)
  {
    var t, u := Translate(a + b, ctab), Translate(a, ctab) + Translate(b, ctab);
    assert |t| == |u|;
    forall i | 0 <= i < |t| ensures t[i] == u[i] {
      assert (a + b)[i] == if i < |a| then a[i] else b[i - |a|];
    }
  }

  // ---- Whole blocks ----

  /** From one count of bytes to another by a number of whole blocks. */
  ghost predicate InBlocks(from: nat, to: nat, obs: nat) {
    obs > 0 && from <= to && (to - from) % obs == 0
  }

  lemma InBlocksNone(n: nat, obs: nat)
    requires obs > 0
    ensures InBlocks(n, n, obs)
  {
  }

  lemma InBlocksOne(from: nat, to: nat, obs: nat)
    requires InBlocks(from, to, obs)
    ensures InBlocks(from, to + obs, obs)
  {
    OneMore(to - from, obs);
  }

  lemma InBlocksThen(a: nat, b: nat, c: nat, obs: nat)
    requires InBlocks(a, b, obs) && InBlocks(b, c, obs)
    ensures InBlocks(a, c, obs)
    decreases c - b
  {
    if b < c {
      assert c - b >= obs;
      OneMore(c - obs - b, obs);
      InBlocksThen(a, b, c - obs, obs);
      InBlocksOne(a, c - obs, obs);
    }
  }

  /** What a conversion makes of the whole input. */
  function Converted(s: Bytes, conv: Conv, cbs: nat, ctab: seq<Byte>): Bytes
    requires (ctab == [] || |ctab| == 256) && (conv.Def? || cbs > 0)
  {
    match conv
    case Def => Translate(s, ctab)
    case ToRecords => Block(s, cbs)
    case ToLines => Unblock(s, cbs)
  }

  // ---- Between reads ----

  /** Blocking, with the lines of src up to closed made into records and rest not looked at yet; or,
      in truncation, the line after them cut to a record and all the rest of it tossed so far. */
  ghost predicate Blocked(src: Bytes, produced: Bytes, rest: Bytes, intrunc: bool, closed: nat, cbs: nat) {
    && closed <= |src| && Closed(src[..closed])
    && if intrunc then
         && rest == [] && NEWLINE !in src[closed..] && |src| - closed >= cbs
         && produced == Block(src[..closed], cbs) + Record(src[closed..], cbs)
       else src[closed..] == rest && produced == Block(src[..closed], cbs)
  }

  lemma BlockedMore(src: Bytes, produced: Bytes, rest: Bytes, closed: nat, cbs: nat, chunk: Bytes)
    requires Blocked(src, produced, rest, false, closed, cbs)
    ensures Blocked(src + chunk, produced, rest + chunk, false, closed, cbs)
  {
    hide Block, Record, Closed;
    assert (src + chunk)[..closed] == src[..closed];
    assert (src + chunk)[closed..] == src[closed..] + chunk;
  }

  lemma CarriedNone(src: Bytes, produced: Bytes, rest: Bytes, closed: nat, cbs: nat)
    requires Blocked(src, produced, rest, true, closed, cbs)
    ensures rest == []
  {
  }

  /** A line longer than a record can go on as it likes. */
  lemma RecordCut(line: Bytes, more: Bytes, cbs: nat)
    requires |line| >= cbs
    ensures Record(line + more, cbs) == Record(line, cbs)
  {
  }

  /** A read in truncation: all of it is tossed, or up to its first newline. */
  lemma BlockedSkip(src: Bytes, produced: Bytes, closed: nat, cbs: nat, chunk: Bytes)
    requires Blocked(src, produced, [], true, closed, cbs)
    ensures var k := LineLength(chunk);
      if k == |chunk| then Blocked(src + chunk, produced, [], true, closed, cbs)
      else Blocked(src + chunk, produced, chunk[k + 1..], false, |src| + k + 1, cbs)
  {
    hide Blocked, LineLength;
    var k := LineLength(chunk);
    assert chunk[..|chunk|] == chunk;
    if k < |chunk| {
      SkippedOver(src, produced, closed, cbs, chunk[..k], chunk[k + 1..]);
      assert src + chunk[..k] + [NEWLINE] + chunk[k + 1..] == src + chunk;
    } else {
      SkippedAll(src, produced, closed, cbs, chunk);
    }
  }

  lemma SkippedAll(src: Bytes, produced: Bytes, closed: nat, cbs: nat, more: Bytes)
    requires Blocked(src, produced, [], true, closed, cbs) && NEWLINE !in more
    ensures Blocked(src + more, produced, [], true, closed, cbs)
  {
    hide Block, Record, Closed;
    assert (src + more)[..closed] == src[..closed];
    assert (src + more)[closed..] == src[closed..] + more;
    RecordCut(src[closed..], more, cbs);
  }

  lemma SkippedOver(src: Bytes, produced: Bytes, closed: nat, cbs: nat, more: Bytes, rest: Bytes)
    requires Blocked(src, produced, [], true, closed, cbs) && NEWLINE !in more
    ensures Blocked(src + more + [NEWLINE] + rest, produced, rest, false, |src| + |more| + 1, cbs)
  {
    hide Block, Record, Closed;
    SkippedAll(src, produced, closed, cbs, more);
    var s, after := src + more, |src| + |more| + 1;
    var t := s + [NEWLINE] + rest;
    assert t[..closed] == s[..closed];
    assert t[closed..after] == s[closed..] + [NEWLINE];
    assert t[after..] == rest;
    ClosesLine(t, closed, s[closed..], after, cbs);
  }

  /** Up to a newline, one more line is done. */
  lemma ClosesLine(s: Bytes, closed: nat, line: Bytes, after: nat, cbs: nat)
    requires closed <= after <= |s| && Closed(s[..closed]) && NEWLINE !in line && s[closed..after] == line + [NEWLINE]
    ensures Closed(s[..after]) && Block(s[..after], cbs) == Block(s[..closed], cbs) + Record(line, cbs)
  {
    hide Block, Record;
    assert s[..after] == s[..closed] + (line + [NEWLINE]);
    BlockConcat(s[..closed], line + [NEWLINE], cbs);
    BlockLine(line, cbs);
  }

  lemma PartOf(src: Bytes, closed: nat, rest: Bytes, k: nat)
    requires closed <= |src| && src[closed..] == rest && k < |rest| && rest[k] == NEWLINE
    ensures src[closed..closed + k + 1] == rest[..k] + [NEWLINE] && src[closed + k + 1..] == rest[k + 1..]
  {
    assert src[closed..][..k + 1] == src[closed..closed + k + 1];
  }

  /** One line more made into a record. */
  lemma BlockedRecord(src: Bytes, produced: Bytes, rest: Bytes, closed: nat, cbs: nat)
    requires Blocked(src, produced, rest, false, closed, cbs)
    requires LineLength(rest) < |rest| || |rest| >= cbs
    ensures var k := LineLength(rest);
      var more := produced + Record(rest[..k], cbs);
      if k < |rest| then Blocked(src, more, rest[k + 1..], false, closed + k + 1, cbs)
      else Blocked(src, more, [], true, closed, cbs)
  {
    hide Block, Record, LineLength, Closed;
    var k := LineLength(rest);
    if k < |rest| {
      PartOf(src, closed, rest, k);
      ClosesLine(src, closed, rest[..k], closed + k + 1, cbs);
    } else {
      assert rest[..k] == rest;
    }
  }

  /** What closing adds makes it all the records there are. */
  lemma BlockedEnd(src: Bytes, produced: Bytes, rest: Bytes, intrunc: bool, closed: nat, cbs: nat)
    requires Blocked(src, produced, rest, intrunc, closed, cbs) && NEWLINE !in rest && cbs > 0
    ensures Block(src, cbs) == if rest == [] then produced else produced + Record(rest, cbs)
  {
    hide Block, Record;
    BlockNone(cbs);
    var last := src[closed..];
    assert src == src[..closed] + last;
    BlockConcat(src[..closed], last, cbs);
    if last != [] {
      BlockLine(last, cbs);
    }
  }

  /** Unblocking, with the records of src up to closed made into lines. */
  ghost predicate Unblocked(src: Bytes, produced: Bytes, rest: Bytes, closed: nat, cbs: nat)
    requires cbs > 0
  {
    closed <= |src| && closed % cbs == 0 && src[closed..] == rest && produced == Unblock(src[..closed], cbs)
  }

  lemma UnblockedMore(src: Bytes, produced: Bytes, rest: Bytes, closed: nat, cbs: nat, chunk: Bytes)
    requires cbs > 0 && Unblocked(src, produced, rest, closed, cbs)
    ensures Unblocked(src + chunk, produced, rest + chunk, closed, cbs)
  {
    assert (src + chunk)[..closed] == src[..closed];
  }

  lemma UnblockedLine(src: Bytes, produced: Bytes, rest: Bytes, closed: nat, cbs: nat)
    requires cbs > 0 && Unblocked(src, produced, rest, closed, cbs) && |rest| >= cbs
    ensures Unblocked(src, produced + Strip(rest[..cbs]) + [NEWLINE], rest[cbs..], closed + cbs, cbs)
  {
    assert src[..closed + cbs] == src[..closed] + rest[..cbs];
    assert src[closed + cbs..] == rest[cbs..];
    UnblockConcat(src[..closed], rest[..cbs], cbs);
    UnblockFirst(rest[..cbs], cbs);
    assert rest[..cbs][..cbs] == rest[..cbs] && rest[..cbs][cbs..] == [];
    OneMore(closed, cbs);
    var x := Strip(rest[..cbs]) + [NEWLINE];
    assert produced + Strip(rest[..cbs]) + [NEWLINE] == produced + (x + []);
  }

  lemma UnblockedEnd(src: Bytes, produced: Bytes, rest: Bytes, closed: nat, cbs: nat)
    requires cbs > 0 && Unblocked(src, produced, rest, closed, cbs) && |rest| < cbs
    ensures Unblock(src, cbs) == if rest == [] then produced else produced + Strip(rest) + [NEWLINE]
  {
    assert src == src[..closed] + rest;
    UnblockConcat(src[..closed], rest, cbs);
    if rest == [] { assert src[..closed] == src; }
    var x := Strip(rest) + [NEWLINE];
    assert produced + Strip(rest) + [NEWLINE] == produced + x;
  }

  /** The reads so far as one input. */
  function Flat(chunks: seq<Bytes>): Bytes {
    if chunks == [] then [] else Flat(chunks[..|chunks| - 1]) + chunks[|chunks| - 1]
  }

  /** How many of the reads a count of blocks lets through; 0 is no limit. */
  function Taken(chunks: seq<Bytes>, cpyCnt: nat): (n: nat)
    ensures n <= |chunks|
  {
    if cpyCnt == 0 || |chunks| < cpyCnt then |chunks| else cpyCnt
  }

  class Copy {
    const conv: Conv
    const ibs: nat
    const obs: nat
    const cbs: nat
    const ctab: seq<Byte>
    const inDb: array<Byte>
    const outDb: array<Byte>

    // Pointers are offsets into the buffers.
    var inP: nat
    var inCnt: nat
    var inR: nat
    var outP: nat
    var outCnt: nat
    var intrunc: bool

    var inFull: nat
    var inPart: nat
    var outFull: nat
    var outPart: nat
    var bytes: nat

    var written: Bytes         // what has been written out
    ghost var src: Bytes       // what has been read
    ghost var closed: nat      // how much of it is converted for good

    /** setup: without records, one buffer is both. */
    constructor (conv: Conv, ibs: nat, obs: nat, cbs: nat, ctab: seq<Byte>)
      requires ibs > 0 && obs > 0 && (conv.Def? || cbs > 0)
      requires if conv.Def? then ctab == [] || |ctab| == 256 else ctab == []
      ensures Valid() && fresh(inDb) && fresh(outDb) && src == [] && written == [] && inFull + inPart == 0
      ensures this.conv == conv && this.ibs == ibs && this.obs == obs && this.cbs == cbs && this.ctab == ctab
    {
      this.conv, this.ibs, this.obs, this.cbs, this.ctab := conv, ibs, obs, cbs, ctab;
      if conv.Def? {
        var db := new Byte[obs + ibs - 1];
        inDb := db;
        outDb := db;
      } else {
        inDb := new Byte[Max(ibs, cbs) + cbs];
        outDb := new Byte[obs + cbs];
      }
      inP, inCnt, inR, outP, outCnt, intrunc := 0, 0, 0, 0, 0, false;
      inFull, inPart, outFull, outPart, bytes := 0, 0, 0, 0, 0;
      written, src, closed := [], [], 0;
    }

    ghost predicate Sizes() {
      && ibs > 0 && obs > 0
      && if conv.Def? then
           inDb == outDb && inDb.Length == obs + ibs - 1 && (ctab == [] || |ctab| == 256)
         else
           && inDb != outDb && cbs > 0 && ctab == []
           && inDb.Length == Max(ibs, cbs) + cbs && outDb.Length == obs + cbs
    }

    /** What has been produced: written, or held in the output buffer. */
    ghost function Produced(): Bytes
      requires outCnt <= outDb.Length
      reads `written, `outCnt, outDb
    {
      written + outDb[..outCnt]
    }

    /** The output buffer holds less than a block, at its beginning; and every byte written is counted. */
    ghost predicate OutRests()
      reads `outP, `outCnt, `bytes, `written
    {
      Sizes() && outP == outCnt < obs && bytes == |written| && outCnt <= outDb.Length
    }

    /** Between reads, at the end of each conversion. */
    ghost predicate DefRests()
      reads this, outDb
    {
      && OutRests() && InBlocks(0, |written|, obs) && inP == inCnt && conv.Def? && !intrunc
      && inCnt == outCnt && Produced() == Translate(src, ctab)
    }

    ghost predicate BlockRests()
      reads this, inDb, outDb
    {
      && OutRests() && InBlocks(0, |written|, obs) && inP == inCnt && conv.ToRecords?
      && inCnt < cbs && NEWLINE !in inDb[..inCnt] && Blocked(src, Produced(), inDb[..inCnt], intrunc, closed, cbs)
    }

    ghost predicate UnblockRests()
      reads this, inDb, outDb
    {
      && OutRests() && InBlocks(0, |written|, obs) && inP == inCnt && conv.ToLines? && !intrunc
      && inCnt < cbs && Unblocked(src, Produced(), inDb[..inCnt], closed, cbs)
    }

    /** Between reads. */
    ghost predicate Valid()
      reads this, inDb, outDb
    {
      match conv
      case Def => DefRests()
      case ToRecords => BlockRests()
      case ToLines => UnblockRests()
    }

    /** What a conversion leaves alone. */
    twostate predicate Frame()
      reads this
    {
      inFull == old(inFull) && inPart == old(inPart)
    }

    // ---- Output ----

    /** write: it takes a part of what it is given, if not all. */
    method Write(from: nat, cnt: nat) returns (nw: nat)
      requires 0 < cnt && from + cnt <= outDb.Length
      modifies `written
      ensures 0 < nw <= cnt && written == old(written) + outDb[from..from + nw]
    {
      nw :| 0 < nw <= cnt;
      written := written + outDb[from..from + nw];
    }

    /** The inner loop of dd_out: one block, in as many writes as it takes. */
    method WriteBlock(from: nat, n: nat)
      requires 0 < n && from + n <= outDb.Length && bytes == |written|
      modifies `written, `bytes, `outFull, `outPart
      ensures written == old(written) + outDb[from..from + n] && bytes == |written|
    {
      var outp, cnt := from, n;
      while true
        invariant 0 < cnt && outp + cnt == from + n && from <= outp && bytes == |written|
        invariant written == old(written) + outDb[from..outp]
        decreases cnt
      {
        var nw := Write(outp, cnt);
        assert outDb[from..outp + nw] == outDb[from..outp] + outDb[outp..outp + nw];
        outp := outp + nw;
        bytes := bytes + nw;
        if nw == n {
          if n != obs {
            outPart := outPart + 1;
          } else {
            outFull := outFull + 1;
          }
          break;
        }
        outPart := outPart + 1;
        if nw == cnt {
          break;
        }
        cnt := cnt - nw;
      }
    }

    method MoveDown(a: array<Byte>, from: nat, n: nat)
      requires from + n <= a.Length
      modifies a
      ensures a[..n] == old(a[from..from + n])
    {
      forall i | 0 <= i < n {
        a[i] := a[from + i];
      }
    }

    /** dd_out: write the blocks that are full, or, forced, all there is; what is left goes to the
        beginning of the buffer. */
    method DdOut(force: bool)
      requires Sizes() && outCnt <= outDb.Length && bytes == |written|
      requires if force then outCnt > 0 else obs <= outCnt && outP == outCnt
      modifies `written, `bytes, `outFull, `outPart, `outP, `outCnt, outDb
      ensures OutRests() && Produced() == old(Produced())
      ensures if force then outCnt == 0 else outCnt < old(outCnt)
      ensures !force ==> InBlocks(old(|written|), |written|, obs)
    {
      hide InBlocks;
      ghost var all := outDb[..outCnt];
      var outp := WriteBlocks(force);
      PartsOf(outDb, |all|, outp);
      assert all == all[..outp] + all[outp..];
      KeepRest(outp, |all|);
    }

    /** What is left goes to the beginning of the buffer. */
    method KeepRest(ghost outp: nat, ghost n: nat)
      requires outp + outCnt == n <= outDb.Length && (outCnt > 0 ==> outP == n)
      modifies `outP, outDb
      ensures outP == outCnt && outDb[..outCnt] == old(outDb[outp..n])
    {
      if outCnt != 0 {
        MoveDown(outDb, outP - outCnt, outCnt);
      }
      outP := outCnt;
    }

    /** dd_out(0). */
    method DdOutBlocks()
      requires Sizes() && outCnt <= outDb.Length && bytes == |written| && InBlocks(0, |written|, obs)
      requires obs <= outCnt && outP == outCnt
      modifies `written, `bytes, `outFull, `outPart, `outP, `outCnt, outDb
      ensures OutRests() && Produced() == old(Produced()) && InBlocks(0, |written|, obs)
    {
      hide InBlocks;
      DdOut(false);
      InBlocksThen(0, old(|written|), |written|, obs);
    }

    method WriteBlocks(force: bool) returns (outp: nat)
      requires Sizes() && outCnt <= outDb.Length && bytes == |written|
      requires if force then outCnt > 0 else obs <= outCnt
      modifies `written, `bytes, `outFull, `outPart, `outCnt
      ensures bytes == |written| && outp + outCnt == old(outCnt)
      ensures outCnt < obs && (force ==> outCnt == 0) && outp > 0
      ensures written == old(written) + outDb[..outp] && (!force ==> InBlocks(old(|written|), |written|, obs))
    {
      hide InBlocks;
      var n := if force then outCnt else obs;
      InBlocksNone(|written|, obs);
      outp := 0;
      while true
        invariant 0 < n <= outCnt && outp + outCnt == old(outCnt) && bytes == |written|
        invariant if force then n == outCnt && outp == 0 else n == obs && InBlocks(old(|written|), |written|, obs)
        invariant written == old(written) + outDb[..outp]
        decreases outCnt
      {
        if !force { InBlocksOne(old(|written|), |written|, obs); }
        WriteBlock(outp, n);
        assert outDb[..outp + n] == outDb[..outp] + outDb[outp..outp + n];
        outp := outp + n;
        outCnt := outCnt - n;
        if outCnt < obs {
          break;
        }
        n := obs;
      }
    }

    // ---- def ----

    static lemma Translated(was: Bytes, now: Bytes, from: nat, ctab: seq<Byte>)
      requires |was| == |now| && from <= |was| && |ctab| == 256
      requires forall i :: 0 <= i < |was| ==> now[i] == if from <= i then ctab[was[i]] else was[i]
      ensures now[..from] == was[..from] && now[from..] == Translate(was[from..], ctab)
    {
    }

    /** Translating what was just read, in place. */
    method TranslateRead(n: nat)
      requires (ctab == [] || |ctab| == 256) && n <= inP <= inDb.Length
      modifies inDb
      ensures inDb[..inP - n] == old(inDb[..inP - n]) && inDb[inP - n..inP] == Translate(old(inDb[inP - n..inP]), ctab)
    {
      if ctab != [] {
        ghost var was := inDb[..inP];
        PartsOf(inDb, inP, inP - n);
        LookUp(n);
        Translated(was, inDb[..inP], inP - n, ctab);
        PartsOf(inDb, inP, inP - n);
      }
    }

    method LookUp(n: nat)
      requires |ctab| == 256 && n <= inP <= inDb.Length
      modifies inDb
      ensures forall i :: 0 <= i < inP ==> inDb[i] == if inP - n <= i then ctab[old(inDb[i])] else old(inDb[i])
    {
      var inp, cnt := inP - n, n;
      while cnt > 0
        invariant inp + cnt == inP && 0 <= cnt <= n
        invariant forall i :: 0 <= i < inP ==> inDb[i] == if inP - n <= i < inp then ctab[old(inDb[i])] else old(inDb[i])
      {
        inDb[inp] := ctab[inDb[inp]];
        inp, cnt := inp + 1, cnt - 1;
      }
    }

    /** def: one buffer, and what is in it goes out in blocks. */
    method ConvDef(ghost chunk: Bytes)
      requires Sizes() && conv.Def? && !intrunc && inP == inCnt <= inDb.Length && inR == |chunk| <= inP && inDb[inP - inR..inP] == chunk
      requires bytes == |written| && InBlocks(0, |written|, obs)
      requires written + inDb[..inP - inR] == Translate(src, ctab)
      modifies this, inDb
      ensures DefRests() && src == old(src) + chunk && Frame()
    {
      hide Translate, Blocked, Unblocked, InBlocks;
      TranslateRead(inR);
      assert written + inDb[..inP] == (written + inDb[..inP - inR]) + inDb[inP - inR..inP];
      TranslateConcat(src, chunk, ctab);
      src := src + chunk;
      OutIsIn();
    }

    /** The output buffer made to look like the input buffer, and after writing the other way. */
    method OutIsIn()
      requires Sizes() && conv.Def? && inP == inCnt <= inDb.Length && bytes == |written| && InBlocks(0, |written|, obs)
      modifies `inP, `inCnt, `written, `bytes, `outFull, `outPart, `outP, `outCnt, outDb
      ensures OutRests() && InBlocks(0, |written|, obs) && inP == inCnt == outCnt
      ensures Produced() == old(written + inDb[..inP])
    {
      hide InBlocks;
      outP := inP;
      outCnt := inCnt;
      if inCnt >= obs {
        DdOutBlocks();
        inP := outP;
        inCnt := outCnt;
      }
    }

    // ---- block ----

    /** In truncation, what was read is tossed up to a newline: the loop at the start of block. */
    method SkipTruncated() returns (inp: nat, cnt: nat)
      requires inR <= inDb.Length
      ensures inp + cnt == inR + (if cnt > 0 then 1 else 0) && inp <= inR
      ensures LineLength(inDb[..inR]) == inR - cnt
    {
      inp, cnt := 0, inR;
      while cnt > 0
        invariant inp + cnt == inR && NEWLINE !in inDb[..inp]
      {
        var ch := inDb[inp];
        assert inDb[..inp + 1] == inDb[..inp] + [inDb[inp]];
        inp := inp + 1;
        if ch == NEWLINE {
          break;
        }
        cnt := cnt - 1;
      }
      assert inDb[..inR][..inR - cnt] == inDb[..inR - cnt];
      LineLengthIs(inDb[..inR], inR - cnt);
    }

    /** Copying a line, or as much of it as fits a record, to the output buffer. */
    method CopyLine(from: nat, maxlen: nat) returns (inp: nat, cnt: nat, ch: Byte)
      requires inDb != outDb && 0 < maxlen && from + maxlen <= inDb.Length && outP + maxlen <= outDb.Length
      modifies outDb
      ensures cnt <= maxlen && NEWLINE !in inDb[from..from + cnt] && (ch == NEWLINE <==> cnt < maxlen)
      ensures cnt < maxlen ==> inDb[from + cnt] == NEWLINE
      ensures inp == from + cnt + (if ch == NEWLINE then 1 else 0)
      ensures outDb[..outP + cnt] == old(outDb[..outP]) + inDb[from..from + cnt]
    {
      inp, cnt, ch := from, 0, 0;
      var outp := outP;
      while cnt < maxlen
        invariant cnt <= maxlen && inp == from + cnt && outp == outP + cnt
        invariant ch != NEWLINE && NEWLINE !in inDb[from..from + cnt]
        invariant outDb[..outp] == old(outDb[..outP]) + inDb[from..inp]
      {
        ch := inDb[inp];
        if ch == NEWLINE {
          inp := inp + 1;
          break;
        }
        outDb[outp] := ch;
        assert outDb[..outp + 1] == outDb[..outp] + [ch];
        assert inDb[from..inp + 1] == inDb[from..inp] + [ch];
        inp, outp, cnt := inp + 1, outp + 1, cnt + 1;
      }
    }

    static lemma TakeOf(a: array<Byte>, from: nat, to: nat, cnt: nat)
      requires from + cnt <= to <= a.Length
      ensures a[from..to][..cnt] == a[from..from + cnt]
    {
    }

    static lemma DropOf(a: array<Byte>, from: nat, to: nat, cnt: nat)
      requires from + cnt <= to <= a.Length
      ensures a[from + cnt..to] == a[from..to][cnt..]
    {
    }

    static lemma PartsOf(a: array<Byte>, n: nat, from: nat)
      requires from <= n <= a.Length
      ensures a[..n][..from] == a[..from] && a[..n][from..] == a[from..n]
    {
    }

    static lemma FrontOf(a: array<Byte>, n: nat, m: nat)
      requires n <= m <= a.Length
      ensures a[..m][..n] == a[..n]
    {
    }

    /** memset with blanks. */
    method Pad(from: nat, n: nat)
      requires from + n <= outDb.Length
      modifies outDb
      ensures outDb[..from + n] == old(outDb[..from]) + Blanks(n)
    {
      forall i | 0 <= i < n {
        outDb[from + i] := BLANK;
      }
    }

    /** Tossing characters to a newline, or all there are. */
    method Toss(from: nat) returns (inp: nat)
      requires from + inCnt <= inDb.Length
      modifies `inCnt
      ensures from <= inp && inp + inCnt == from + old(inCnt) + (if inCnt > 0 then 1 else 0)
      ensures LineLength(inDb[from..from + old(inCnt)]) == old(inCnt) - inCnt
    {
      inp := from;
      ghost var end := from + inCnt;
      while inCnt > 0
        invariant from <= inp && inp + inCnt == end && NEWLINE !in inDb[from..inp]
      {
        var ch := inDb[inp];
        assert inDb[from..inp + 1] == inDb[from..inp] + [inDb[inp]];
        inp := inp + 1;
        if ch == NEWLINE {
          break;
        }
        inCnt := inCnt - 1;
      }
      ghost var k := end - inCnt - from;
      assert inDb[from..end][..k] == inDb[from..from + k];
      LineLengthIs(inDb[from..end], k);
    }

    /** One round of block: a line made into a record, unless it may go on in the next read. */
    method BlockOne(from: nat) returns (inp: nat, stop: bool)
      requires OutRests() && InBlocks(0, |written|, obs) && conv.ToRecords? && !intrunc
      requires 0 < inCnt <= inP <= inDb.Length && from == inP - inCnt
      modifies `inCnt, `intrunc, `written, `bytes, `outFull, `outPart, `outP, `outCnt, outDb
      ensures OutRests() && InBlocks(0, |written|, obs)
      ensures var rest := inDb[from..inP];
        var k := LineLength(rest);
        && stop == (k == |rest| < cbs)
        && if stop then inCnt == |rest| && !intrunc && Produced() == old(Produced())
           else
             && Produced() == old(Produced()) + Record(rest[..k], cbs)
             && if k < |rest| then !intrunc && inCnt == |rest| - k - 1 && inp == inP - inCnt
                else intrunc && inCnt == 0
    {
      hide InBlocks, Record, LineLength;
      ghost var rest := inDb[from..inP];
      var maxlen := if cbs < inCnt then cbs else inCnt;
      ghost var all := outDb[..outP];
      var cnt, ch;
      inp, cnt, ch := CopyLine(from, maxlen);
      assert inDb[from..inP] == rest;
      TakeOf(inDb, from, inP, cnt);
      stop := ch != NEWLINE && inCnt < cbs;
      if stop {
        assert rest[..cnt] == rest;
        LineLengthIs(rest, cnt);
        FrontOf(outDb, outP, outP + cnt);
        return;
      }
      inp := RecordOut(inp, cnt, ch, rest, all);
    }

    method RecordOut(from: nat, cnt: nat, ch: Byte, ghost rest: Bytes, ghost all: Bytes) returns (inp: nat)
      requires OutRests() && InBlocks(0, |written|, obs) && conv.ToRecords? && !intrunc && inP <= inDb.Length && inCnt == |rest| <= inP
      requires rest == inDb[inP - inCnt..inP] && cnt <= cbs && cnt <= |rest| && NEWLINE !in rest[..cnt]
      requires from == inP - inCnt + cnt + (if ch == NEWLINE then 1 else 0)
      requires if ch == NEWLINE then cnt < cbs && cnt < |rest| && rest[cnt] == NEWLINE else cnt == cbs
      requires outDb[..outP + cnt] == all + rest[..cnt]
      modifies `inCnt, `intrunc, `written, `bytes, `outFull, `outPart, `outP, `outCnt, outDb
      ensures OutRests() && InBlocks(0, |written|, obs)
      ensures var k := LineLength(rest);
        && Produced() == old(written) + all + Record(rest[..k], cbs)
        && if k < |rest| then !intrunc && inCnt == |rest| - k - 1 && inp == inP - inCnt else intrunc && inCnt == 0
    {
      hide InBlocks, Record, LineLength;
      inp := FinishRecord(from, cnt, ch, rest, all);
      ghost var r := Record(rest[..LineLength(rest)], cbs);
      assert written + (all + r) == (written + all) + r;
      Emit(cbs);
    }

    /** The copied part of the line padded, or, if it fills a record, the rest of it tossed. */
    method FinishRecord(from: nat, cnt: nat, ch: Byte, ghost rest: Bytes, ghost all: Bytes) returns (inp: nat)
      requires Sizes() && conv.ToRecords? && !intrunc && outP < obs && inP <= inDb.Length && inCnt == |rest| <= inP
      requires rest == inDb[inP - inCnt..inP] && cnt <= cbs && cnt <= |rest| && NEWLINE !in rest[..cnt]
      requires from == inP - inCnt + cnt + (if ch == NEWLINE then 1 else 0)
      requires if ch == NEWLINE then cnt < cbs && cnt < |rest| && rest[cnt] == NEWLINE else cnt == cbs
      requires outDb[..outP + cnt] == all + rest[..cnt]
      modifies `inCnt, `intrunc, outDb
      ensures var k := LineLength(rest);
        && outDb[..outP + cbs] == all + Record(rest[..k], cbs)
        && if k < |rest| then !intrunc && inCnt == |rest| - k - 1 && inp == inP - inCnt
           else intrunc && inCnt == 0
    {
      hide Record, LineLength;
      inp := from;
      inCnt := inCnt - cnt;
      if ch == NEWLINE {
        inCnt := inCnt - 1;
      }
      if cnt < cbs {
        LineLengthIs(rest, cnt);
        Padded(rest[..cnt], cbs);
        Pad(outP + cnt, cbs - cnt);
      } else {
        DropOf(inDb, inP - |rest|, inP, cbs);
        LongRecord(rest, cbs);
        inp := TossRest(inp);
      }
    }

    /** The record of a line that fills it does not depend on the rest of the line. */
    static lemma LongRecord(rest: Bytes, cbs: nat)
      requires cbs <= |rest| && NEWLINE !in rest[..cbs]
      ensures LineLength(rest) == cbs + LineLength(rest[cbs..]) && Record(rest[..LineLength(rest)], cbs) == rest[..cbs]
    {
      hide Record, LineLength;
      LineSplit(rest, cbs);
      CutTo(rest[..LineLength(rest)], cbs);
      assert rest[..LineLength(rest)][..cbs] == rest[..cbs];
    }

    /** A line longer than a record: the rest of it goes, and if its end is not there, more will. */
    method TossRest(from: nat) returns (inp: nat)
      requires inP <= inDb.Length && inCnt <= inP && from == inP - inCnt && !intrunc
      modifies `inCnt, `intrunc
      ensures var rest := inDb[from..inP];
        var k := LineLength(rest);
        if k < |rest| then !intrunc && inCnt == |rest| - k - 1 && inp == inP - inCnt else intrunc && inCnt == 0
    {
      inp := Toss(from);
      if inCnt == 0 {
        intrunc := true;
      } else {
        inCnt := inCnt - 1;
      }
    }

    /** A number of bytes put after the others in the output buffer are output. */
    method Emit(n: nat)
      requires OutRests() && InBlocks(0, |written|, obs) && outP + n <= outDb.Length
      modifies `written, `bytes, `outFull, `outPart, `outP, `outCnt, outDb
      ensures OutRests() && InBlocks(0, |written|, obs)
      ensures Produced() == old(written + outDb[..outP + n])
    {
      outP := outP + n;
      outCnt := outCnt + n;
      if outCnt >= obs {
        DdOutBlocks();
      }
    }

    static lemma CutTo(line: Bytes, cbs: nat)
      requires |line| >= cbs
      ensures Record(line, cbs) == line[..cbs]
    {
    }

    static lemma Padded(line: Bytes, cbs: nat)
      requires |line| <= cbs
      ensures Record(line, cbs) == line + Blanks(cbs - |line|)
    {
      if |line| == cbs { assert line[..cbs] == line; }
    }

    /** The loop of block, over all lines read. */
    method BlockLines()
      requires OutRests() && InBlocks(0, |written|, obs) && conv.ToRecords? && !intrunc && inCnt <= inP <= inDb.Length
      requires Blocked(src, Produced(), inDb[inP - inCnt..inP], false, closed, cbs)
      modifies `inCnt, `intrunc, `written, `bytes, `outFull, `outPart, `outP, `outCnt, `closed, inDb, outDb
      ensures OutRests() && InBlocks(0, |written|, obs) && inCnt < cbs && NEWLINE !in inDb[..inCnt]
      ensures Blocked(src, Produced(), inDb[..inCnt], intrunc, closed, cbs)
    {
      hide InBlocks, Blocked, LineLength, Record;
      var inp := inP - inCnt;
      while inCnt > 0
        invariant OutRests() && InBlocks(0, |written|, obs) && inCnt <= inP && unchanged(`inP, `src, inDb)
        invariant Blocked(src, Produced(), inDb[inP - inCnt..inP], intrunc, closed, cbs)
        invariant inCnt > 0 ==> !intrunc && inp == inP - inCnt
        decreases inCnt
      {
        var stop;
        inp, stop := BlockRound(inp);
        if stop {
          MoveDown(inDb, inP - inCnt, inCnt);
          return;
        }
      }
      assert inDb[..inCnt] == inDb[inP - inCnt..inP];
    }

    /** One round of the loop of block. */
    method BlockRound(from: nat) returns (inp: nat, stop: bool)
      requires OutRests() && InBlocks(0, |written|, obs) && conv.ToRecords? && !intrunc
      requires 0 < inCnt <= inP <= inDb.Length && from == inP - inCnt
      requires Blocked(src, Produced(), inDb[inP - inCnt..inP], false, closed, cbs)
      modifies `inCnt, `intrunc, `written, `bytes, `outFull, `outPart, `outP, `outCnt, `closed, outDb
      ensures OutRests() && InBlocks(0, |written|, obs) && inCnt <= inP
      ensures Blocked(src, Produced(), inDb[inP - inCnt..inP], intrunc, closed, cbs)
      ensures stop ==> !intrunc && inCnt < cbs && NEWLINE !in inDb[inP - inCnt..inP]
      ensures !stop ==> inCnt < old(inCnt) && (inCnt > 0 ==> !intrunc && inp == inP - inCnt)
    {
      hide InBlocks, Blocked, LineLength, Record;
      ghost var rest := inDb[inP - inCnt..inP];
      if LineLength(rest) < |rest| || |rest| >= cbs { BlockedRecord(src, Produced(), rest, closed, cbs); }
      inp, stop := BlockOne(from);
      assert inDb[inP - |rest|..inP] == rest;
      if stop {
        assert rest[..|rest|] == rest;
      } else if !intrunc {
        closed := closed + LineLength(rest) + 1;
        DropOf(inDb, inP - |rest|, inP, LineLength(rest) + 1);
      } else {
        assert inDb[inP - inCnt..inP] == [];
      }
    }

    /** The start of block in truncation; more is false if the read ends without the end of the line. */
    method Resume(ghost chunk: Bytes) returns (more: bool)
      requires intrunc && inR == |chunk| <= inDb.Length && inDb[..inR] == chunk && inCnt == inR
      requires outCnt <= outDb.Length && Blocked(src, Produced(), [], true, closed, cbs)
      modifies `inCnt, `inP, `intrunc, `src, `closed
      ensures src == old(src) + chunk && inCnt <= inP <= inDb.Length
      ensures Blocked(src, Produced(), inDb[inP - inCnt..inP], intrunc, closed, cbs)
      ensures more == !intrunc && (!more ==> inCnt == inP == 0)
    {
      hide Blocked, LineLength;
      var inp, cnt := SkipTruncated();
      BlockedSkip(src, Produced(), closed, cbs, chunk);
      src := src + chunk;
      more := cnt > 0;
      if cnt == 0 {
        inCnt := 0;
        inP := 0;
        assert inDb[0..0] == [];
        return;
      }
      intrunc := false;
      inCnt := cnt - 1;
      inP := inp + cnt - 1;
      closed := |old(src)| + LineLength(chunk) + 1;
      assert inDb[inP - inCnt..inP] == chunk[LineLength(chunk) + 1..];
    }

    /** block: the lines read so far become records, but for one that may go on. */
    method ConvBlock(ghost chunk: Bytes)
      requires OutRests() && InBlocks(0, |written|, obs) && conv.ToRecords? && chunk != []
      requires inP == inCnt <= inDb.Length && inR == |chunk| <= inP && inDb[inP - inR..inP] == chunk
      requires Blocked(src, Produced(), inDb[..inP - inR], intrunc, closed, cbs)
      modifies this, inDb, outDb
      ensures BlockRests() && src == old(src) + chunk && Frame()
    {
      hide InBlocks, Blocked, Unblocked, Translate, Sizes;
      if intrunc {
        Alone(chunk);
        var more := Resume(chunk);
        if !more {
          AllRest();
          return;
        }
      } else {
        Carry(chunk);
      }
      BlockLines();
      inP := inCnt;
    }

    /** In truncation, nothing was carried over. */
    lemma Alone(chunk: Bytes)
      requires intrunc && inP == inCnt <= inDb.Length && inR == |chunk| <= inP && inDb[inP - inR..inP] == chunk
      requires outCnt <= outDb.Length && Blocked(src, Produced(), inDb[..inP - inR], intrunc, closed, cbs)
      ensures inCnt == inR && inDb[..inR] == chunk && Blocked(src, Produced(), [], true, closed, cbs)
    {
      hide Blocked;
      CarriedNone(src, Produced(), inDb[..inP - inR], closed, cbs);
    }

    ghost method Carry(chunk: Bytes)
      requires !intrunc && inP == inCnt <= inDb.Length && inR == |chunk| <= inP && inDb[inP - inR..inP] == chunk
      requires outCnt <= outDb.Length && Blocked(src, Produced(), inDb[..inP - inR], intrunc, closed, cbs)
      modifies `src
      ensures src == old(src) + chunk && Blocked(src, Produced(), inDb[inP - inCnt..inP], intrunc, closed, cbs)
    {
      hide Blocked;
      ghost var carry := inDb[..inP - inR];
      BlockedMore(src, Produced(), carry, closed, cbs, chunk);
      assert inDb[inP - inCnt..inP] == carry + chunk;
      src := src + chunk;
    }

    lemma AllRest()
      requires inP == inCnt == 0 && Sizes() && conv.ToRecords? && outCnt <= outDb.Length
      requires Blocked(src, Produced(), inDb[inP - inCnt..inP], intrunc, closed, cbs)
      ensures inCnt < cbs && NEWLINE !in inDb[..inCnt] && Blocked(src, Produced(), inDb[..inCnt], intrunc, closed, cbs)
    {
      hide Blocked;
      assert inDb[..inCnt] == inDb[inP - inCnt..inP];
    }

    // ---- unblock ----

    /** How much of a record is left without the blanks at its end. */
    method Stripped(from: nat, n: nat) returns (cnt: nat)
      requires from + n <= inDb.Length
      ensures cnt <= n && inDb[from..from + cnt] == Strip(inDb[from..from + n])
    {
      ghost var r := inDb[from..from + n];
      var t := from + n;
      while t > from && inDb[t - 1] == BLANK
        invariant from <= t <= from + n && forall i :: t - from <= i < n ==> r[i] == BLANK
      {
        t := t - 1;
      }
      cnt := t - from;
      assert cnt > 0 ==> r[cnt - 1] == inDb[t - 1];
      StripIs(r, cnt);
      assert r[..cnt] == inDb[from..from + cnt];
    }

    method CopyOut(from: nat, n: nat)
      requires inDb != outDb && from + n <= inDb.Length && outP + n <= outDb.Length
      modifies outDb
      ensures outDb[..outP + n] == old(outDb[..outP]) + inDb[from..from + n]
    {
      forall i | 0 <= i < n {
        outDb[outP + i] := inDb[from + i];
      }
    }

    /** A record put after the others in the output buffer, as a line. */
    method PutLine(from: nat, n: nat)
      requires inDb != outDb && outP == outCnt && from + n <= inDb.Length && outP + n + 1 <= outDb.Length
      modifies `outP, `outCnt, outDb
      ensures outP == outCnt <= outDb.Length
      ensures Produced() == old(Produced()) + Strip(inDb[from..from + n]) + [NEWLINE]
    {
      ghost var all := outDb[..outP];
      var cnt := Stripped(from, n);
      if cnt > 0 {
        CopyOut(from, cnt);
        outP := outP + cnt;
        outCnt := outCnt + cnt;
      }
      ghost var line := inDb[from..from + cnt];
      assert outDb[..outP] == all + line;
      outCnt := outCnt + 1;
      outDb[outP] := NEWLINE;
      outP := outP + 1;
      assert outDb[..outP] == all + line + [NEWLINE];
      assert written + (all + line + [NEWLINE]) == written + all + line + [NEWLINE];
    }

    /** One round of unblock. */
    method UnblockOne(inp: nat)
      requires OutRests() && InBlocks(0, |written|, obs) && conv.ToLines? && inp + cbs <= inDb.Length
      modifies `written, `bytes, `outFull, `outPart, `outP, `outCnt, outDb
      ensures OutRests() && InBlocks(0, |written|, obs)
      ensures Produced() == old(Produced()) + Strip(inDb[inp..inp + cbs]) + [NEWLINE]
    {
      hide InBlocks, Strip;
      PutLine(inp, cbs);
      if outCnt >= obs {
        DdOutBlocks();
      }
    }

    /** The loop of unblock, over the whole records read, and the move of what is left. */
    method UnblockLines()
      requires OutRests() && InBlocks(0, |written|, obs) && conv.ToLines? && inP == inCnt <= inDb.Length
      requires Unblocked(src, Produced(), inDb[..inP], closed, cbs)
      modifies `inCnt, `written, `bytes, `outFull, `outPart, `outP, `outCnt, `closed, inDb, outDb
      ensures OutRests() && InBlocks(0, |written|, obs) && inCnt < cbs
      ensures Unblocked(src, Produced(), inDb[..inCnt], closed, cbs)
    {
      hide InBlocks, Unblocked, Strip;
      var inp := 0;
      assert inDb[0..inP] == inDb[..inP];
      while inCnt >= cbs
        invariant OutRests() && InBlocks(0, |written|, obs) && inp + inCnt == inP && unchanged(`inP, `src, inDb)
        invariant Unblocked(src, Produced(), inDb[inp..inP], closed, cbs)
        decreases inCnt
      {
        UnblockRound(inp);
        inp, inCnt := inp + cbs, inCnt - cbs;
      }
      if inCnt > 0 {
        MoveDown(inDb, inP - inCnt, inCnt);
      } else {
        assert inDb[..inCnt] == inDb[inp..inP];
      }
    }

    /** One round of the loop. */
    method UnblockRound(inp: nat)
      requires OutRests() && InBlocks(0, |written|, obs) && conv.ToLines? && inp + cbs <= inP <= inDb.Length
      requires Unblocked(src, Produced(), inDb[inp..inP], closed, cbs)
      modifies `written, `bytes, `outFull, `outPart, `outP, `outCnt, `closed, outDb
      ensures OutRests() && InBlocks(0, |written|, obs)
      ensures Unblocked(src, Produced(), inDb[inp + cbs..inP], closed, cbs)
    {
      hide InBlocks, Unblocked, Strip;
      UnblockedLine(src, Produced(), inDb[inp..inP], closed, cbs);
      TakeOf(inDb, inp, inP, cbs);
      DropOf(inDb, inp, inP, cbs);
      UnblockOne(inp);
      closed := closed + cbs;
    }

    /** unblock: the whole records read so far become lines. */
    method ConvUnblock(ghost chunk: Bytes)
      requires OutRests() && InBlocks(0, |written|, obs) && conv.ToLines? && !intrunc
      requires inP == inCnt <= inDb.Length && inR == |chunk| <= inP && inDb[inP - inR..inP] == chunk
      requires Unblocked(src, Produced(), inDb[..inP - inR], closed, cbs)
      modifies this, inDb, outDb
      ensures UnblockRests() && src == old(src) + chunk && Frame()
    {
      hide InBlocks, Unblocked, Blocked, Translate;
      UnblockedMore(src, Produced(), inDb[..inP - inR], closed, cbs, chunk);
      src := src + chunk;
      assert inDb[..inP] == inDb[..inP - inR] + chunk;
      UnblockLines();
      inP := inCnt;
    }

    // ---- Reading and closing ----

    /** read, of a number of bytes that fit a block. */
    method Read(chunk: Bytes)
      requires inP + |chunk| <= inDb.Length
      modifies inDb
      ensures inDb[..inP] == old(inDb[..inP]) && inDb[inP..inP + |chunk|] == chunk
    {
      forall i | 0 <= i < |chunk| {
        inDb[inP + i] := chunk[i];
      }
    }

    /** One round of dd_in. */
    method ReadOne(chunk: Bytes)
      requires Valid() && 0 < |chunk| <= ibs
      modifies this, inDb, outDb
      ensures Valid() && src == old(src) + chunk && inFull + inPart == old(inFull + inPart) + 1
    {
      hide InBlocks, Blocked, Unblocked, Translate;
      Read(chunk);
      var n := |chunk|;
      if n == ibs {
        inR := n;
        inCnt := inCnt + n;
        inFull := inFull + 1;
      } else {
        inR := n;
        inCnt := inCnt + n;
        inPart := inPart + 1;
      }
      inP := inP + inR;
      match conv {
        case Def => ConvDef(chunk);
        case ToRecords => ConvBlock(chunk);
        case ToLines => ConvUnblock(chunk);
      }
    }

    /** The end of the input. */
    method ReadNone()
      requires Valid()
      modifies `inR
      ensures Valid()
    {
      inR := 0;
    }

    /** dd_in: read and convert until there is no more, or the count of blocks is reached. */
    method DdIn(chunks: seq<Bytes>, cpyCnt: nat)
      requires Valid() && inFull + inPart == 0 && forall i :: 0 <= i < |chunks| ==> 0 < |chunks[i]| <= ibs
      modifies this, inDb, outDb
      ensures Valid() && src == old(src) + Flat(chunks[..Taken(chunks, cpyCnt)])
    {
      hide Valid;
      var i := 0;
      assert chunks[..0] == [];
      while cpyCnt == 0 || inFull + inPart < cpyCnt
        invariant Valid() && 0 <= i <= |chunks| && inFull + inPart == i && (cpyCnt > 0 ==> i <= cpyCnt)
        invariant src == old(src) + Flat(chunks[..i])
        decreases |chunks| - i
      {
        if i == |chunks| {
          ReadNone();
          return;
        }
        ReadOne(chunks[i]);
        assert chunks[..i + 1][..i] == chunks[..i];
        assert old(src) + Flat(chunks[..i]) + chunks[i] == old(src) + (Flat(chunks[..i]) + chunks[i]);
        i := i + 1;
      }
    }

    /** dd_close: convert what is left of the input, and write all that is left of the output. */
    method DdClose()
      requires Valid()
      modifies this, inDb, outDb
      ensures written == Converted(src, conv, cbs, ctab) && bytes == |written| && outCnt == 0 && src == old(src)
    {
      match conv {
        case Def =>
          if inCnt > 0 {
            outCnt := inCnt;
          }
        case ToRecords => BlockClose();
        case ToLines => UnblockClose();
      }
      if outCnt > 0 {
        DdOut(true);
      }
    }

    method BlockClose()
      requires BlockRests()
      modifies `outCnt, outDb
      ensures outCnt <= outDb.Length && Produced() == Block(src, cbs)
    {
      hide Blocked, Block, Record;
      BlockedEnd(src, Produced(), inDb[..inCnt], intrunc, closed, cbs);
      if inCnt > 0 {
        ghost var all, line := outDb[..outP], inDb[..inCnt];
        CopyOut(inP - inCnt, inCnt);
        Pad(outP + inCnt, cbs - inCnt);
        outCnt := outCnt + cbs;
        Padded(line, cbs);
        assert outDb[..outCnt] == all + Record(line, cbs);
        assert written + (all + Record(line, cbs)) == written + all + Record(line, cbs);
      }
    }

    method UnblockClose()
      requires UnblockRests()
      modifies `outP, `outCnt, outDb
      ensures outCnt <= outDb.Length && Produced() == Unblock(src, cbs)
    {
      hide Unblocked, Unblock, Strip;
      UnblockedEnd(src, Produced(), inDb[..inCnt], closed, cbs);
      if inCnt > 0 {
        PutLine(0, inCnt);
      }
    }
  }

  /** A whole run. Whatever the sizes of the reads and of the writes, what is written is the
      conversion of all that was read. */
  method Dd(conv: Conv, ibs: nat, obs: nat, cbs: nat, ctab: seq<Byte>, cpyCnt: nat, chunks: seq<Bytes>)
      returns (written: Bytes, bytes: nat)
    requires ibs > 0 && obs > 0 && (conv.Def? || cbs > 0)
    requires if conv.Def? then ctab == [] || |ctab| == 256 else ctab == []
    requires forall i :: 0 <= i < |chunks| ==> 0 < |chunks[i]| <= ibs
    ensures written == Converted(Flat(chunks[..Taken(chunks, cpyCnt)]), conv, cbs, ctab) && bytes == |written|
  {
    var c := new Copy(conv, ibs, obs, cbs, ctab);
    c.DdIn(chunks, cpyCnt);
    assert [] + Flat(chunks[..Taken(chunks, cpyCnt)]) == Flat(chunks[..Taken(chunks, cpyCnt)]);
    c.DdClose();
    written, bytes := c.written, c.bytes;
  }
}
