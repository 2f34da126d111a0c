/** The shell's parser as it runs: loops over a range of the word list, calling one another, with the
    words of a command gathered in an array whose size a first pass has counted. */
module Parser {
  import opened Basics
  import opened Grammar

  /** A range of the list of words: from p1 up to p2. */
  function Range(ws: seq<Word>, p1: nat, p2: nat): seq<Word>
    requires p1 <= p2 <= |ws|
  {
    ws[p1..p2]
  }

  /** Whether the word after a range is a closing parenthesis. */
  predicate Closes(ws: seq<Word>, p2: nat) {
    p2 < |ws| && At(ws[p2], 0) == ')'
  }

  lemma RangeStep(ws: seq<Word>, p: nat, p2: nat)
    requires p < p2 <= |ws|
    ensures Range(ws, p, p2) != [] && Range(ws, p, p2)[0] == ws[p] && Range(ws, p, p2)[1..] == Range(ws, p + 1, p2)
  {
  }

  lemma RangeSplit(ws: seq<Word>, p1: nat, p: nat, p2: nat)
    requires p1 <= p <= p2 <= |ws|
    ensures Range(ws, p1, p2)[..p - p1] == Range(ws, p1, p) && Range(ws, p1, p2)[p - p1..] == Range(ws, p, p2)
  {
  }

  lemma RangeRange(ws: seq<Word>, p1: nat, p2: nat, a: nat, b: nat)
    requires p1 <= p2 <= |ws| && a <= b <= p2 - p1
    ensures Range(ws, p1, p2)[a..b] == Range(ws, p1 + a, p1 + b)
  {
    forall i | 0 <= i < b - a ensures Range(ws, p1, p2)[a..b][i] == ws[p1 + a + i] {}
  }

  method Syntax(ws: seq<Word>, p1: nat, p2: nat, flags: Context) returns (r: Parsed)
    requires p1 <= p2 <= |ws|
    ensures r == Grammar.Syntax(Range(ws, p1, p2), Closes(ws, p2), flags)
    decreases |Skip(Range(ws, p1, p2))|, 6
  {
    var p := p1;
    while p != p2
      invariant p1 <= p <= p2 && Skip(Range(ws, p, p2)) == Skip(Range(ws, p1, p2))
      decreases p2 - p
    {
      RangeStep(ws, p, p2);
      if Opening(ws[p]) {
        p := p + 1;
      } else {
        r := Syn0(ws, p, p2, flags);
        return;
      }
    }
    r := Ok(Nil);
  }

  /** The loop of syn0: to an & at depth 0. */
  method ScanAmp(ws: seq<Word>, p1: nat, p2: nat) returns (s: Scan)
    requires p1 <= p2 <= |ws|
    ensures s == FindAmp(Range(ws, p1, p2), 0)
  {
    hide FindAmp, Range, TakesAmp, Shift, At, Nested;
    ShiftNone(FindAmp(Range(ws, p1, p2), 0));
    var l: nat, p: nat := 0, p1;
    while p != p2
      invariant p1 <= p <= p2 && FindAmp(Range(ws, p1, p2), 0) == Shift(p - p1, FindAmp(Range(ws, p, p2), l))
      decreases p2 - p
    {
      AmpStep(ws, p1, p, p2, l);
      if At(ws[p], 0) == '&' && l == 0 && At(ws[p], 1) != '&' {
        return AmpAt(p - p1);
      }
      if At(ws[p], 0) == ')' && l == 0 {
        return Bad(TooManyRp);
      }
      l, p := PassOver(ws, p1, p, p2, l);
    }
    AmpNone(ws, p1, p2, l);
    s := if l == 0 then NoAmp else Bad(TooManyLp);
  }

  method PassOver(ws: seq<Word>, ghost p1: nat, p0: nat, p2: nat, l0: nat) returns (l: nat, p: nat)
    requires p1 <= p0 < p2 <= |ws|
    requires l0 == 0 ==> At(ws[p0], 0) != ')' && !(At(ws[p0], 0) == '&' && At(ws[p0], 1) != '&')
    ensures p0 < p <= p2
    ensures Shift(p0 - p1, FindAmp(Range(ws, p0, p2), l0)) == Shift(p - p1, FindAmp(Range(ws, p, p2), l))
  {
    hide FindAmp, Range, TakesAmp, Shift, Nested;
    AmpStep(ws, p1, p0, p2, l0);
    l, p := l0, p0;
    var w := ws[p];
    if At(w, 0) == '(' {
      l := l + 1;
    } else if At(w, 0) == ')' {
      l := l - 1;
    } else if TakesAmp(w) && p + 1 != p2 && ws[p + 1] == "&" {
      p := p + 1;
    }
    p := p + 1;
  }

  lemma ShiftNone(s: Scan)
    ensures Shift(0, s) == s
  {
  }

  /** One step of the scan, with all before it. */
  lemma AmpStep(ws: seq<Word>, p1: nat, p: nat, p2: nat, l: nat)
    requires p1 <= p < p2 <= |ws|
    ensures Shift(p - p1, FindAmp(Range(ws, p, p2), l)) ==
      var w := ws[p];
      if At(w, 0) == ')' && l == 0 then Bad(TooManyRp)
      else if TakesAmp(w) && p + 1 < p2 && ws[p + 1] == "&" then Shift(p + 2 - p1, FindAmp(Range(ws, p + 2, p2), l))
      else if At(w, 0) == '&' && l == 0 && At(w, 1) != '&' then AmpAt(p - p1)
      else Shift(p + 1 - p1, FindAmp(Range(ws, p + 1, p2), Bump(l, w)))
    ensures TakesAmp(ws[p]) ==> At(ws[p], 0) != '(' && At(ws[p], 0) != ')' && At(ws[p], 0) != '&'
  {
    RangeStep(ws, p, p2);
    if p + 1 < p2 {
      RangeStep(ws, p + 1, p2);
      assert Range(ws, p, p2)[2..] == Range(ws, p + 2, p2);
    }
  }

  lemma AmpNone(ws: seq<Word>, p1: nat, p2: nat, l: nat)
    requires p1 <= p2 <= |ws|
    ensures Shift(p2 - p1, FindAmp(Range(ws, p2, p2), l)) == if l == 0 then NoAmp else Bad(TooManyLp)
  {
  }

  method Syn0(ws: seq<Word>, p1: nat, p2: nat, flags: Context) returns (r: Parsed)
    requires p1 <= p2 <= |ws|
    ensures r == Grammar.Syn0(Range(ws, p1, p2), Closes(ws, p2), flags)
    decreases p2 - p1, 5
  {
    var s := ScanAmp(ws, p1, p2);
    match s {
      case Bad(e) => r := Err(e);
      case NoAmp => r := Syn1(ws, p1, p2, flags);
      case AmpAt(k) =>
        var p := p1 + k;
        RangeSplit(ws, p1, p, p2);
        RangeStep(ws, p, p2);
        var t1 := Syn1(ws, p1, p, flags);
        if t1.Err? { return t1; }
        var cdr := Syntax(ws, p, p2, flags);
        r := if cdr.Err? then cdr else Ok(List(InBackground(t1.tree), cdr.tree));
    }
  }

  /** The loops of syn1, syn1a, syn1b and syn2: to a separator at depth 0. */
  method ScanFor(ws: seq<Word>, p1: nat, p2: nat, sep: Separator) returns (p: nat)
    requires p1 <= p2 <= |ws|
    ensures p1 <= p <= p2 && p - p1 == Find(Range(ws, p1, p2), 0, sep)
  {
    hide Find, Range, Separates;
    var l := 0;
    p := p1;
    while p != p2
      invariant p1 <= p <= p2 && Find(Range(ws, p1, p2), 0, sep) == p - p1 + Find(Range(ws, p, p2), l, sep)
      decreases p2 - p
    {
      var w := ws[p];
      FindStep(ws, p, p2, l, sep);
      if Separates(sep, w) { NotClosing(w, sep); }
      if At(w, 0) == '(' {
        l := l + 1;
      } else if At(w, 0) == ')' {
        l := l - 1;
      } else if Separates(sep, w) && l == 0 {
        return;
      }
      p := p + 1;
    }
    FindNone(ws, p2, l, sep);
  }

  lemma FindStep(ws: seq<Word>, p: nat, p2: nat, l: int, sep: Separator)
    requires p < p2 <= |ws|
    ensures Find(Range(ws, p, p2), l, sep)
         == if l == 0 && Separates(sep, ws[p]) then 0 else 1 + Find(Range(ws, p + 1, p2), Bump(l, ws[p]), sep)
  {
    RangeStep(ws, p, p2);
  }

  lemma FindNone(ws: seq<Word>, p2: nat, l: int, sep: Separator)
    requires p2 <= |ws|
    ensures Find(Range(ws, p2, p2), l, sep) == 0
  {
  }

  lemma RangeLength(ws: seq<Word>, p1: nat, p2: nat)
    requires p1 <= p2 <= |ws|
    ensures |Range(ws, p1, p2)| == p2 - p1
  {
  }

  /** A range parted at a separator. */
  lemma SplitAt(ws: seq<Word>, p1: nat, p: nat, p2: nat, sep: Separator)
    requires p1 <= p < p2 <= |ws| && p - p1 == Find(Range(ws, p1, p2), 0, sep) && Nested(Range(ws, p1, p2), 0)
    ensures Range(ws, p1, p2)[..p - p1] == Range(ws, p1, p) && Nested(Range(ws, p1, p), 0)
    ensures Range(ws, p1, p2)[p - p1 + 1..] == Range(ws, p + 1, p2) && Nested(Range(ws, p + 1, p2), 0)
    ensures !Closes(ws, p) && |Range(ws, p1, p2)| == p2 - p1
  {
    hide Find, Nested, Separates;
    RangeSplit(ws, p1, p, p2);
    RangeSplit(ws, p1, p + 1, p2);
    assert Range(ws, p1, p2)[p - p1] == ws[p];
    NotClosing(ws[p], sep);
  }

  lemma NotClosing(w: Word, sep: Separator)
    requires Separates(sep, w)
    ensures At(w, 0) != ')' && At(w, 0) != '('
  {
  }

  /** The same past the & of |&. */
  lemma SplitDiag(ws: seq<Word>, p1: nat, p: nat, p2: nat)
    requires p1 <= p && p + 1 < p2 <= |ws|
    ensures |Range(ws, p1, p2)| == p2 - p1 && Range(ws, p1, p2)[p - p1 + 1] == ws[p + 1]
    ensures Range(ws, p1, p2)[p - p1 + 2..] == Range(ws, p + 2, p2)
    ensures Nested(Range(ws, p + 1, p2), 0) && At(ws[p + 1], 0) == '&' ==> Nested(Range(ws, p + 2, p2), 0)
  {
    RangeStep(ws, p + 1, p2);
  }

  method Syn1(ws: seq<Word>, p1: nat, p2: nat, flags: Context) returns (r: Parsed)
    requires p1 <= p2 <= |ws| && Nested(Range(ws, p1, p2), 0)
    ensures r == Grammar.Syn1(Range(ws, p1, p2), Closes(ws, p2), flags)
    decreases p2 - p1, 4
  {
    hide Find, Nested, Range, Closes, Separates;
    RangeLength(ws, p1, p2);
    var p := ScanFor(ws, p1, p2, Semi);
    if p == p2 {
      r := Syn1a(ws, p1, p2, flags);
    } else {
      SplitAt(ws, p1, p, p2, Semi);
      var car := Syn1a(ws, p1, p, flags);
      if car.Err? { return car; }
      var cdr := Syntax(ws, p + 1, p2, flags);
      if cdr.Err? { return cdr; }
      r := Ok(if cdr.tree.Nil? then List(Nil, car.tree) else List(car.tree, cdr.tree));
    }
  }

  method Syn1a(ws: seq<Word>, p1: nat, p2: nat, flags: Context) returns (r: Parsed)
    requires p1 <= p2 <= |ws| && Nested(Range(ws, p1, p2), 0)
    ensures r == Grammar.Syn1a(Range(ws, p1, p2), Closes(ws, p2), flags)
    decreases p2 - p1, 3
  {
    hide Find, Nested, Range, Closes, Separates;
    RangeLength(ws, p1, p2);
    var p := ScanFor(ws, p1, p2, OrOr);
    if p == p2 {
      r := Syn1b(ws, p1, p2, flags);
    } else {
      SplitAt(ws, p1, p, p2, OrOr);
      var car := Syn1b(ws, p1, p, flags);
      if car.Err? { return car; }
      var cdr := Syn1a(ws, p + 1, p2, flags);
      r := if cdr.Err? then cdr else Ok(Or(car.tree, cdr.tree));
    }
  }

  method Syn1b(ws: seq<Word>, p1: nat, p2: nat, flags: Context) returns (r: Parsed)
    requires p1 <= p2 <= |ws| && Nested(Range(ws, p1, p2), 0)
    ensures r == Grammar.Syn1b(Range(ws, p1, p2), Closes(ws, p2), flags)
    decreases p2 - p1, 2
  {
    hide Find, Nested, Range, Closes, Separates;
    RangeLength(ws, p1, p2);
    var p := ScanFor(ws, p1, p2, AndAnd);
    if p == p2 {
      r := Syn2(ws, p1, p2, flags);
    } else {
      SplitAt(ws, p1, p, p2, AndAnd);
      var car := Syn2(ws, p1, p, flags);
      if car.Err? { return car; }
      var cdr := Syn1b(ws, p + 1, p2, flags);
      r := if cdr.Err? then cdr else Ok(And(car.tree, cdr.tree));
    }
  }

  method Syn2(ws: seq<Word>, p1: nat, p2: nat, flags: Context) returns (r: Parsed)
    requires p1 <= p2 <= |ws| && Nested(Range(ws, p1, p2), 0)
    ensures r == Grammar.Syn2(Range(ws, p1, p2), Closes(ws, p2), flags)
    decreases p2 - p1, 1
  {
    hide Find, Nested, Range, Closes, Separates, Grammar.Syn3;
    RangeLength(ws, p1, p2);
    var p := ScanFor(ws, p1, p2, Bar);
    if p == p2 {
      r := Syn3(ws, p1, p2, flags);
    } else {
      SplitAt(ws, p1, p, p2, Bar);
      var f := flags.(pout := true);
      var pn := p + 1;
      if pn != p2 { SplitDiag(ws, p1, p, p2); }
      var diag := pn != p2 && At(ws[pn], 0) == '&';
      if diag {
        f := f.(pdiag := true);
      }
      var car := Syn3(ws, p1, p, f);
      if car.Err? { return car; }
      if diag {
        p := pn;
      }
      var cdr := Syn2(ws, p + 1, p2, flags.(pin := true));
      r := if cdr.Err? then cdr else Ok(Pipe(car.tree, cdr.tree, PLAIN.(stderr := diag)));
    }
  }

  // ---- syn3 ----

  /** The start of syn3: past any else, whether the command is a special one. */
  method IsSpecial(ws: seq<Word>, p1: nat, p2: nat) returns (specp: bool)
    requires p1 <= p2 <= |ws|
    ensures specp == Special(Range(ws, p1, p2))
  {
    var p := p1;
    while p != p2
      invariant p1 <= p <= p2 && Special(Range(ws, p, p2)) == Special(Range(ws, p1, p2))
      decreases p2 - p
    {
      RangeStep(ws, p, p2);
      if ws[p] != "else" {
        specp := ws[p] in ["@", "exit", "foreach", "if", "set", "switch", "while"];
        return;
      }
      p := p + 1;
    }
    specp := false;
  }

  /** How many words the first pass of syn3 counts, from a word on, at depth l. */
  function Count(ws: seq<Word>, p: nat, l: int, specp: bool): int
    requires p <= |ws|
    decreases |ws| - p
  {
    if p == |ws| then 0
    else
      var c := At(ws[p], 0);
      if c == '(' || c == ')' then (if specp then 1 else 0) + Count(ws, p + 1, Bump(l, ws[p]), specp)
      else if c == '>' || c == '<' then
        (if l != 0 then (if specp then 1 else 0)
         else if p + 1 == |ws| || RelPar(ws[p + 1]) then 0
         else -1) + Count(ws, p + 1, l, specp)
      else (if !specp && l != 0 then 0 else 1) + Count(ws, p + 1, l, specp)
  }

  /** A word taken off for a redirection is its file, which is counted. */
  lemma {:induction false} CountNat(ws: seq<Word>, p: nat, l: int, specp: bool)
    requires p <= |ws|
    ensures Count(ws, p, l, specp) >= 0
    decreases |ws| - p
  {
    if p < |ws| {
      var c := At(ws[p], 0);
      if (c == '>' || c == '<') && l == 0 && p + 1 < |ws| && !RelPar(ws[p + 1]) {
        CountNat(ws, p + 2, l, specp);
      } else {
        CountNat(ws, p + 1, Bump(l, ws[p]), specp);
      }
    }
  }

  method CountWords(ws: seq<Word>, p1: nat, p2: nat, specp: bool) returns (n: nat)
    requires p1 <= p2 <= |ws|
    ensures n == Count(Range(ws, p1, p2), 0, 0, specp)
  {
    ghost var r := Range(ws, p1, p2);
    var i, l, p := 0, 0, p1;
    while p != p2
      invariant p1 <= p <= p2 && i + Count(r, p - p1, l, specp) == Count(r, 0, 0, specp)
      decreases p2 - p
    {
      var c := At(ws[p], 0);
      assert r[p - p1] == ws[p] && (p + 1 < p2 ==> r[p - p1 + 1] == ws[p + 1]);
      if c == '(' {
        if specp { i := i + 1; }
        l := l + 1;
      } else if c == ')' {
        if specp { i := i + 1; }
        l := l - 1;
      } else if c == '>' || c == '<' {
        if l != 0 {
          if specp { i := i + 1; }
        } else if p + 1 != p2 && !RelPar(ws[p + 1]) {
          i := i - 1;
        }
      } else if specp || l == 0 {
        i := i + 1;
      }
      p := p + 1;
    }
    CountNat(r, 0, 0, specp);
    n := i;    // never negative, so that the original need not make sure
  }

  /** An output redirection, at p: past &, past !, to the file. */
  method OutAt(ws: seq<Word>, p1: nat, p0: nat, p2: nat, s: State, flags: Context) returns (r: Redirected)
    requires p1 <= p0 < p2 <= |ws|
    ensures r == RedirectOut(Range(ws, p1, p2), p0 - p1, s, flags)
  {
    ghost var words := Range(ws, p1, p2);
    assert forall i :: p1 <= i < p2 ==> words[i - p1] == ws[i];
    var p, flg := p0, s.flg;
    if At(ws[p], 1) == '>' {
      flg := flg.(append := true);
    }
    if p + 1 != p2 && ws[p + 1] == "&" {
      flg := flg.(stderr := true);
      p := p + 1;
      if flags.pout || flags.pdiag { return Refused(OutRed); }
    }
    if p + 1 != p2 && ws[p + 1] == "!" {
      flg := flg.(overwrite := true);
      p := p + 1;
    }
    if p + 1 == p2 { return Refused(MisRed); }
    p := p + 1;
    if RelPar(ws[p]) { return Refused(MisRed); }
    if (flags.pout && !flags.pdiag) || s.rit.Some? {
      r := Refused(OutRed);
    } else {
      r := Taken(p + 1 - p1, s.(rit := Some(ws[p]), flg := flg));
    }
  }

  method InAt(ws: seq<Word>, p1: nat, p0: nat, p2: nat, s: State, flags: Context) returns (r: Redirected)
    requires p1 <= p0 < p2 <= |ws|
    ensures r == RedirectIn(Range(ws, p1, p2), p0 - p1, s, flags)
  {
    ghost var words := Range(ws, p1, p2);
    assert forall i :: p1 <= i < p2 ==> words[i - p1] == ws[i];
    var p, flg := p0, s.flg;
    if At(ws[p], 1) == '<' {
      flg := flg.(read := true);
    }
    if p + 1 == p2 { return Refused(MisRed); }
    p := p + 1;
    if RelPar(ws[p]) { return Refused(MisRed); }
    if flags.here && flg.read {
      r := Refused(RedPar);
    } else if flags.pin || s.lef.Some? {
      r := Refused(InRed);
    } else {
      r := Taken(p + 1 - p1, s.(lef := Some(ws[p]), flg := flg));
    }
  }

  /** What the words of a redirection count for: those taken for & and ! were counted as words. */
  lemma RedirectedCount(ws: seq<Word>, p: nat, s: State, specp: bool, flags: Context)
    requires p < |ws| && s.l == 0 && (At(ws[p], 0) == '>' || At(ws[p], 0) == '<')
    ensures var r := if At(ws[p], 0) == '>' then RedirectOut(ws, p, s, flags) else RedirectIn(ws, p, s, flags);
      r.Taken? ==> Count(ws, r.next, 0, specp) <= Count(ws, p, 0, specp)
  {
    var r := if At(ws[p], 0) == '>' then RedirectOut(ws, p, s, flags) else RedirectIn(ws, p, s, flags);
    if r.Taken? {
      OneCounted(ws, r.next - 1, specp);
      if p + 2 < r.next { OneCounted(ws, p + 1, specp); }
      if p + 3 < r.next { OneCounted(ws, p + 2, specp); }
      assert r.next <= p + 4;
    }
  }

  lemma OneCounted(ws: seq<Word>, p: nat, specp: bool)
    requires p < |ws| && !RelPar(ws[p])
    ensures Count(ws, p, 0, specp) == 1 + Count(ws, p + 1, 0, specp)
  {
  }

  /** The second pass: the words go into av, as many as were counted or fewer, with room for the null
      after them. In the state they are left out. */
  method Gather(ws: seq<Word>, p1: nat, p2: nat, specp: bool, flags: Context, av: array<Word>)
      returns (error: Filled, s: State, n: nat)
    requires p1 <= p2 <= |ws| && av.Length == Count(Range(ws, p1, p2), 0, 0, specp) + 1
    modifies av
    ensures n < av.Length
    ensures Fill(Range(ws, p1, p2), 0, Start(Closes(ws, p2)), specp, flags)
         == if error.Failed? then error else Full(s.(av := av[..n]))
  {
    hide Fill, Count, RedirectOut, RedirectIn, RelPar;
    ghost var r := Range(ws, p1, p2);
    ghost var all := Fill(r, 0, Start(Closes(ws, p2)), specp, flags);
    var p := p1;
    s, n := Start(Closes(ws, p2)), 0;
    error := Full(s);
    CountNat(r, 0, 0, specp);
    assert av[..0] == [];
    while p != p2
      invariant p1 <= p <= p2 && error.Full? && n < av.Length
      invariant Fill(r, p - p1, s.(av := av[..n]), specp, flags) == all
      invariant n + Count(r, p - p1, s.l, specp) < av.Length
      decreases p2 - p
    {
      var w, c := ws[p], At(ws[p], 0);
      ghost var q := p - p1;
      assert r[q] == w;
      if (c == '>' || c == '<') && s.l == 0 {
        var to;
        RedirectedCount(r, q, s.(av := av[..n]), specp, flags);
        RedirectedLess(r, q, s, av[..n], flags);
        FillRedirected(r, q, s.(av := av[..n]), specp, flags);
        if c == '>' {
          to := OutAt(ws, p1, p, p2, s, flags);
        } else {
          to := InAt(ws, p1, p, p2, s, flags);
        }
        match to {
          case Refused(e) => error := Failed(e); return;
          case Taken(next, s1) => p, s := p1 + next, s1;
        }
        CountNat(r, p - p1, s.l, specp);
      } else {
        CountNat(r, q + 1, Bump(s.l, w), specp);
        FillWord(r, q, s.(av := av[..n]), specp, flags);
        var save := specp || (s.l == 0 && c != '(' && c != ')');
        if c == '(' {
          if s.l == 0 && s.lp != -1 && !specp { error := Failed(BadPlp); return; }
          s := s.(lp := if s.l == 0 then p - p1 + 1 else s.lp, l := s.l + 1);
        } else if c == ')' {
          s := s.(l := s.l - 1, rp := if s.l - 1 == 0 then p - p1 else s.rp);
        }
        if save {
          av[n] := w;
          assert av[..n + 1] == av[..n] + [w];
          n := n + 1;
        }
        p := p + 1;
      }
    }
    FillNone(r, s.(av := av[..n]), specp, flags);
  }

  /** A word that is no redirection, in the second pass and in the first. */
  lemma FillWord(ws: seq<Word>, p: nat, s: State, specp: bool, flags: Context)
    requires p < |ws| && !((At(ws[p], 0) == '>' || At(ws[p], 0) == '<') && s.l == 0)
    ensures var w := ws[p];
      var c := At(w, 0);
      var save := specp || (s.l == 0 && c != '(' && c != ')');
      var s1 := if c == '(' || c == ')' then Parenthesis(s, p, w, false) else s;
      && Fill(ws, p, s, specp, flags)
      == (if c == '(' && s.l == 0 && s.lp != -1 && !specp then Failed(BadPlp)
          else Fill(ws, p + 1, if save then Keep(s1, w) else s1, specp, flags))
      && Count(ws, p, s.l, specp) == (if save then 1 else 0) + Count(ws, p + 1, Bump(s.l, w), specp)
  {
  }

  lemma FillRedirected(ws: seq<Word>, p: nat, s: State, specp: bool, flags: Context)
    requires p < |ws| && (At(ws[p], 0) == '>' || At(ws[p], 0) == '<') && s.l == 0
    ensures var r := if At(ws[p], 0) == '>' then RedirectOut(ws, p, s, flags) else RedirectIn(ws, p, s, flags);
      Fill(ws, p, s, specp, flags) == if r.Refused? then Failed(r.error) else Fill(ws, r.next, r.s, specp, flags)
  {
  }

  lemma FillNone(ws: seq<Word>, s: State, specp: bool, flags: Context)
    ensures Fill(ws, |ws|, s, specp, flags) == Full(s)
  {
  }

  /** Redirections neither look at the words gathered nor change them. */
  lemma RedirectedLess(ws: seq<Word>, p: nat, s: State, av: seq<Word>, flags: Context)
    requires p < |ws|
    ensures RedirectOut(ws, p, s.(av := av), flags) == WithWords(RedirectOut(ws, p, s, flags), av)
    ensures RedirectIn(ws, p, s.(av := av), flags) == WithWords(RedirectIn(ws, p, s, flags), av)
  {
    hide OutTo;
    var s1 := if At(ws[p], 1) == '>' then s.(flg := s.flg.(append := true)) else s;
    OutToLess(ws, p, s1, av, flags);
    if p + 1 < |ws| { OutToLess(ws, p + 1, s1.(flg := s1.flg.(stderr := true)), av, flags); }
  }

  lemma OutToLess(ws: seq<Word>, q: nat, s: State, av: seq<Word>, flags: Context)
    requires q < |ws|
    ensures OutTo(ws, q, s.(av := av), flags) == WithWords(OutTo(ws, q, s, flags), av)
  {
  }

  function WithWords(r: Redirected, av: seq<Word>): Redirected {
    if r.Taken? then Taken(r.next, r.s.(av := av)) else r
  }

  method Syn3(ws: seq<Word>, p1: nat, p2: nat, flags: Context) returns (r: Parsed)
    requires p1 <= p2 <= |ws| && Nested(Range(ws, p1, p2), 0)
    ensures r == Grammar.Syn3(Range(ws, p1, p2), Closes(ws, p2), flags)
    decreases p2 - p1, 0
  {
    hide Fill, Count, Special, Nested, Grammar.Syn0;
    ghost var words := Range(ws, p1, p2);
    var specp := IsSpecial(ws, p1, p2);
    var count := CountWords(ws, p1, p2, specp);
    var av := new Word[count + 1];
    var error, s, n := Gather(ws, p1, p2, specp, flags, av);
    ParensFound(words, specp, flags, Closes(ws, p2));
    var com := av[..n];
    assert |com| == n;
    if error.Failed? { return Err(error.error); }
    if s.lp != -1 && !specp {
      if n != 0 { return Err(BadPlps); }
      RangeRange(ws, p1, p2, s.lp, s.rp);
      var spr := Syn0(ws, p1 + s.lp, p1 + s.rp, INSIDE);
      r := if spr.Err? then spr else Ok(Paren(spr.tree, s.lef, s.rit, s.flg));
    } else if n == 0 {
      r := Err(NullCom);
    } else {
      r := Ok(Command(com, s.lef, s.rit, s.flg));
    }
  }

  /** The end of the parentheses found is a closing one. */
  lemma {:induction false} FillCloses(ws: seq<Word>, p: nat, s: State, specp: bool, ctx: Context)
    requires p <= |ws| && s.rp < p && (s.rp >= 0 ==> At(ws[s.rp], 0) == ')')
    ensures var f := Fill(ws, p, s, specp, ctx);
      f.Full? ==> f.s.rp < |ws| && (f.s.rp >= 0 ==> At(ws[f.s.rp], 0) == ')')
    decreases |ws| - p
  {
    if p < |ws| {
      var w := ws[p];
      var c := At(w, 0);
      if c == '(' && s.l == 0 && s.lp != -1 && !specp {
      } else if c == '(' || c == ')' {
        FillCloses(ws, p + 1, Parenthesis(s, p, w, specp), specp, ctx);
      } else if (c == '>' || c == '<') && s.l == 0 {
        var r := if c == '>' then RedirectOut(ws, p, s, ctx) else RedirectIn(ws, p, s, ctx);
        if r.Taken? { FillCloses(ws, r.next, r.s, specp, ctx); }
      } else {
        FillCloses(ws, p + 1, if s.l != 0 && !specp then s else Keep(s, w), specp, ctx);
      }
    }
  }

  /** Both parentheses are found, or neither. */
  lemma ParensFound(ws: seq<Word>, specp: bool, ctx: Context, close: bool)
    requires Nested(ws, 0)
    ensures var f := Fill(ws, 0, Start(close), specp, ctx);
      f.Full? && f.s.lp != -1 ==> 0 < f.s.lp <= f.s.rp < |ws| && At(ws[f.s.rp], 0) == ')'
  {
    assert ws[0..] == ws;
    FillParens(ws, 0, Start(close), specp, ctx);
    FillCloses(ws, 0, Start(close), specp, ctx);
  }
}
