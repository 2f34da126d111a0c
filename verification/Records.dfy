/** What dd's record conversions make of a whole input: lines to records of one length, and back. */
module Records {

  type Byte = b: int | 0 <= b < 256

  const BLANK: Byte := 32
  const NEWLINE: Byte := 10

  type Bytes = seq<Byte>

  // ---- Lines to records ----

  /** How far the first line goes: to a newline, or to the end. */
  function LineLength(s: Bytes): (k: nat)
    ensures k <= |s| && NEWLINE !in s[..k] && (k < |s| ==> s[k] == NEWLINE)
  {
    if s == [] || s[0] == NEWLINE then 0
    else
      var k := LineLength(s[1..]);
      assert s[..k + 1] == [s[0]] + s[1..][..k];
      k + 1
  }

  lemma {:induction false} LineLengthIs(s: Bytes, k: nat)
    requires k <= |s| && NEWLINE !in s[..k] && (k < |s| ==> s[k] == NEWLINE)
    ensures LineLength(s) == k
  {
    if s != [] && s[0] != NEWLINE {
      assert s[..k] == [s[0]] + s[1..][..k - 1];
      LineLengthIs(s[1..], k - 1);
    }
  }

  lemma {:induction false} LineSplit(s: Bytes, n: nat)
    requires n <= |s| && NEWLINE !in s[..n]
    ensures LineLength(s) == n + LineLength(s[n..])
  {
    var k := n + LineLength(s[n..]);
    assert s[..k] == s[..n] + s[n..][..k - n];
    LineLengthIs(s, k);
  }

  /** What comes after the first line and its newline. */
  function AfterLine(s: Bytes): Bytes {
    var k := LineLength(s);
    if k < |s| then s[k + 1..] else []
  }

  function Blanks(n: nat): Bytes {
    seq(n, _ => BLANK)
  }

  /** A line as a record: cut to the record length, or padded with blanks to it. */
  function Record(line: Bytes, cbs: nat): (r: Bytes)
    ensures |r| == cbs
  {
    if |line| >= cbs then line[..cbs] else line + Blanks(cbs - |line|)
  }

  /** The records of all the lines; a last one without a newline counts, unless it is empty. */
  function Block(s: Bytes, cbs: nat): Bytes
    decreases |s|
  {
    if s == [] then [] else Record(s[..LineLength(s)], cbs) + Block(AfterLine(s), cbs)
  }

  /** Nothing, or something a newline ends. */
  predicate Closed(s: Bytes) {
    s == [] || s[|s| - 1] == NEWLINE
  }

  lemma BlockFirst(s: Bytes, cbs: nat)
    requires s != []
    ensures Block(s, cbs) == Record(s[..LineLength(s)], cbs) + Block(AfterLine(s), cbs)
  {
  }

  /** Whole lines convert apart from what comes after them. */
  lemma {:induction false} BlockConcat(a: Bytes, b: Bytes, cbs: nat)
    requires Closed(a)
    ensures Block(a + b, cbs) == Block(a, cbs) + Block(b, cbs)
    decreases |a|
  {
    hide Block, Record, LineLength, AfterLine, Closed;
    if a == [] {
      assert a + b == b;
      BlockNone(cbs);
      assert [] + Block(b, cbs) == Block(b, cbs);
    } else {
      ClosedLine(a, b);
      BlockFirst(a, cbs);
      BlockFirst(a + b, cbs);
      BlockConcat(AfterLine(a), b, cbs);
    }
  }

  lemma BlockNone(cbs: nat)
    ensures Block([], cbs) == []
  {
  }

  /** The first of some whole lines is the first, whatever comes after them. */
  lemma ClosedLine(a: Bytes, b: Bytes)
    requires Closed(a) && a != []
    ensures LineLength(a) < |a|
    ensures (a + b)[..LineLength(a + b)] == a[..LineLength(a)]
    ensures AfterLine(a + b) == AfterLine(a) + b && Closed(AfterLine(a)) && |AfterLine(a)| < |a|
  {
    var k := LineLength(a);
    assert NEWLINE in a && a[..|a|] == a;
    assert (a + b)[..k] == a[..k];
    LineLengthIs(a + b, k);
  }

  /** A line with its newline, or without if anything is in it, is one record. */
  lemma BlockLine(line: Bytes, cbs: nat)
    requires NEWLINE !in line
    ensures Block(line + [NEWLINE], cbs) == Record(line, cbs)
    ensures line != [] ==> Block(line, cbs) == Record(line, cbs)
  {
    var s := line + [NEWLINE];
    assert s[..|line|] == line;
    LineLengthIs(s, |line|);
    assert AfterLine(s) == [];
    assert line[..|line|] == line;
    LineLengthIs(line, |line|);
    assert AfterLine(line) == [];
    assert Record(line, cbs) + [] == Record(line, cbs);
  }

  lemma RecordClean(line: Bytes, cbs: nat)
    requires NEWLINE !in line
    ensures NEWLINE !in Record(line, cbs)
  {
  }

  /** Blocked data has no newline left in it, and fills a number of records. */
  lemma {:induction false} BlockClean(s: Bytes, cbs: nat)
    ensures NEWLINE !in Block(s, cbs)
    ensures cbs > 0 ==> |Block(s, cbs)| % cbs == 0
    decreases |s|
  {
    if s != [] {
      RecordClean(s[..LineLength(s)], cbs);
      BlockClean(AfterLine(s), cbs);
      if cbs > 0 { OneMore(|Block(AfterLine(s), cbs)|, cbs); }
    }
  }

  lemma OneMore(n: nat, m: nat)
    requires m > 0
    ensures (n + m) % m == n % m
  {
    var q, r, q1, r1 := n / m, n % m, (n + m) / m, (n + m) % m;
    assert m * (q + 1) == m * q + m;
    Unique(m, q + 1, r, q1, r1);
  }

  /** Division has one quotient and one remainder. */
  lemma Unique(m: int, q: int, r: int, q1: int, r1: int)
    requires m > 0 && 0 <= r < m && 0 <= r1 < m && m * q + r == m * q1 + r1
    ensures q == q1 && r == r1
  {
    assert m * (q - q1) == r1 - r && m * (q1 - q) == r - r1;
    if q - q1 > 0 { AtLeast(m, q - q1); }
    if q1 - q > 0 { AtLeast(m, q1 - q); }
  }

  lemma AtLeast(m: int, d: int)
    requires m > 0 && d > 0
    ensures m * d >= m
  {
  }

  // ---- Records to lines ----

  /** A record without the blanks at its end. */
  function Strip(r: Bytes): (s: Bytes)
    ensures s <= r && (s == [] || s[|s| - 1] != BLANK)
    ensures forall i :: |s| <= i < |r| ==> r[i] == BLANK
  {
    if r == [] || r[|r| - 1] != BLANK then r else Strip(r[..|r| - 1])
  }

  lemma {:induction false} StripIs(r: Bytes, n: nat)
    requires n <= |r| && (n == 0 || r[n - 1] != BLANK) && forall i :: n <= i < |r| ==> r[i] == BLANK
    ensures Strip(r) == r[..n]
  {
    if r != [] && r[|r| - 1] == BLANK {
      assert r[..|r| - 1][..n] == r[..n];
      StripIs(r[..|r| - 1], n);
    }
  }

  /** The records as lines; what is left over at the end counts, unless it is nothing. */
  function Unblock(s: Bytes, cbs: nat): Bytes
    requires cbs > 0
    decreases |s|
  {
    if s == [] then []
    else if |s| <= cbs then Strip(s) + [NEWLINE]
    else Strip(s[..cbs]) + [NEWLINE] + Unblock(s[cbs..], cbs)
  }

  lemma UnblockFirst(s: Bytes, cbs: nat)
    requires 0 < cbs <= |s|
    ensures Unblock(s, cbs) == Strip(s[..cbs]) + [NEWLINE] + Unblock(s[cbs..], cbs)
  {
    if |s| == cbs {
      assert s[..cbs] == s && s[cbs..] == [];
    }
  }

  lemma UnblockNone(cbs: nat)
    requires cbs > 0
    ensures Unblock([], cbs) == []
  {
  }

  lemma UnblockRecord(r: Bytes, rest: Bytes)
    requires r != []
    ensures Unblock(r + rest, |r|) == Strip(r) + [NEWLINE] + Unblock(rest, |r|)
  {
    UnblockFirst(r + rest, |r|);
    assert (r + rest)[..|r|] == r && (r + rest)[|r|..] == rest;
  }

  /** Whole records convert apart from what comes after them. */
  lemma {:induction false} UnblockConcat(a: Bytes, b: Bytes, cbs: nat)
    requires cbs > 0 && |a| % cbs == 0
    ensures Unblock(a + b, cbs) == Unblock(a, cbs) + Unblock(b, cbs)
    decreases |a|
  {
    hide Unblock, Strip;
    if a == [] {
      assert a + b == b;
      UnblockNone(cbs);
      assert [] + Unblock(b, cbs) == Unblock(b, cbs);
    } else {
      assert |a| >= cbs;
      var r, rest := a[..cbs], a[cbs..];
      assert a == r + rest && a + b == r + (rest + b);
      UnblockRecord(r, rest + b);
      UnblockRecord(r, rest);
      OneMore(|rest|, cbs);
      UnblockConcat(rest, b, cbs);
    }
  }

  // ---- There and back ----

  /** Lines, each with its newline, that fit a record and do not end in a blank. */
  predicate Tidy(s: Bytes, cbs: nat)
    decreases |s|
  {
    s == [] ||
    var k := LineLength(s);
    k < |s| && k <= cbs && (k == 0 || s[k - 1] != BLANK) && Tidy(s[k + 1..], cbs)
  }

  lemma RecordStripped(line: Bytes, cbs: nat)
    requires |line| <= cbs && (line == [] || line[|line| - 1] != BLANK)
    ensures Strip(Record(line, cbs)) == line
  {
    StripIs(Record(line, cbs), |line|);
  }

  lemma StrippedRecord(r: Bytes)
    ensures Record(Strip(r), |r|) == r
  {
    var s := Strip(r);
    forall i | |s| <= i < |r| ensures Record(s, |r|)[i] == r[i] {}
    assert Record(s, |r|) == r;
  }

  lemma {:induction false} TidyThere(s: Bytes, cbs: nat)
    requires cbs > 0 && Tidy(s, cbs)
    ensures Unblock(Block(s, cbs), cbs) == s
    decreases |s|
  {
    hide Block, Unblock, Record, Strip, Tidy, LineLength, AfterLine;
    if s == [] {
      BlockNone(cbs);
      UnblockNone(cbs);
    } else {
      var line, rest := TidyFirst(s, cbs);
      BlockFirst(s, cbs);
      TidyThere(rest, cbs);
      UnblockRecord(Record(line, cbs), Block(rest, cbs));
      RecordStripped(line, cbs);
    }
  }

  lemma TidyFirst(s: Bytes, cbs: nat) returns (line: Bytes, rest: Bytes)
    requires s != [] && Tidy(s, cbs)
    ensures line == s[..LineLength(s)] && rest == AfterLine(s) && s == line + [NEWLINE] + rest
    ensures |line| <= cbs && (line == [] || line[|line| - 1] != BLANK) && Tidy(rest, cbs) && |rest| < |s|
  {
    line, rest := s[..LineLength(s)], AfterLine(s);
  }

  lemma {:induction false} UnblockTidy(d: Bytes, cbs: nat)
    requires cbs > 0 && NEWLINE !in d
    ensures Tidy(Unblock(d, cbs), cbs)
    decreases |d|
  {
    hide Strip, Unblock;
    if d == [] {
      UnblockNone(cbs);
    } else {
      var n := if |d| <= cbs then |d| else cbs;
      UnblockHead(d, n, cbs);
      UnblockTidy(d[n..], cbs);
      TidyMore(Strip(d[..n]), Unblock(d[n..], cbs), cbs);
    }
  }

  lemma UnblockHead(d: Bytes, n: nat, cbs: nat)
    requires cbs > 0 && d != [] && n == if |d| <= cbs then |d| else cbs
    ensures Unblock(d, cbs) == Strip(d[..n]) + [NEWLINE] + Unblock(d[n..], cbs)
  {
    hide Strip;
    if |d| <= cbs {
      assert d[..n] == d && d[n..] == [];
    }
  }

  lemma TidyMore(line: Bytes, rest: Bytes, cbs: nat)
    requires NEWLINE !in line && |line| <= cbs && (line == [] || line[|line| - 1] != BLANK) && Tidy(rest, cbs)
    ensures Tidy(line + [NEWLINE] + rest, cbs)
  {
    var u := line + [NEWLINE] + rest;
    assert u[..|line|] == line;
    LineLengthIs(u, |line|);
    assert u[|line| + 1..] == rest;
  }

  /** Unblocking the blocked form gives the text back exactly when its lines are tidy. */
  lemma UnblockBlock(s: Bytes, cbs: nat)
    requires cbs > 0
    ensures Unblock(Block(s, cbs), cbs) == s <==> Tidy(s, cbs)
  {
    if Tidy(s, cbs) {
      TidyThere(s, cbs);
    }
    BlockClean(s, cbs);
    UnblockTidy(Block(s, cbs), cbs);
  }

  lemma {:induction false} CleanThere(d: Bytes, cbs: nat)
    requires cbs > 0 && NEWLINE !in d && |d| % cbs == 0
    ensures Block(Unblock(d, cbs), cbs) == d
    decreases |d|
  {
    hide Block, Unblock, Record, Strip;
    if d == [] {
      BlockNone(cbs);
      UnblockNone(cbs);
    } else {
      assert |d| >= cbs;
      var r, rest := d[..cbs], d[cbs..];
      UnblockFirst(d, cbs);
      BlockConcat(Strip(r) + [NEWLINE], Unblock(rest, cbs), cbs);
      BlockLine(Strip(r), cbs);
      StrippedRecord(r);
      OneMore(|rest|, cbs);
      CleanThere(rest, cbs);
      assert d == r + rest;
    }
  }

  /** Blocking the unblocked form gives the data back exactly when it fills its records and has no
      newline in it. */
  lemma BlockUnblock(d: Bytes, cbs: nat)
    requires cbs > 0
    ensures Block(Unblock(d, cbs), cbs) == d <==> NEWLINE !in d && |d| % cbs == 0
  {
    if NEWLINE !in d && |d| % cbs == 0 {
      CleanThere(d, cbs);
    }
    BlockClean(Unblock(d, cbs), cbs);
  }
}
