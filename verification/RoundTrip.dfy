/** Writing a command tree out as the shell does for its list of jobs, and that parsing the words gives
    the tree back. */
module RoundTrip {
  import opened Basics
  import opened Grammar

  // ---- Writing out ----

  function Redirections(lef: Option<Word>, rit: Option<Word>, flg: Flags): seq<Word> {
    (if lef.Some? then [if flg.read then "<<" else "<", lef.value] else []) +
    (if rit.Some? then [if flg.append then ">>" else ">"] + (if flg.stderr then ["&"] else []) + [rit.value] else [])
  }

  /** padd's words. */
  function Words(t: Tree): seq<Word> {
    match t
    case Nil => []
    case Command(av, lef, rit, flg) => av + Redirections(lef, rit, flg)
    case Paren(spr, lef, rit, flg) => ["("] + Words(spr) + [")"] + Redirections(lef, rit, flg)
    case Pipe(car, cdr, _) => Words(car) + ["|"] + Words(cdr)
    case And(car, cdr) => Words(car) + ["&&"] + Words(cdr)
    case Or(car, cdr) => Words(car) + ["||"] + Words(cdr)
    case List(car, cdr) => Words(car) + [";"] + Words(cdr)
  }

  // ---- Normal trees ----

  predicate Plain(w: Word) {
    At(w, 0) !in ['(', ')', '|', '&', ';', '\n', '<', '>']
  }

  /** Redirections that can be written, and that the context allows. */
  predicate NormalTo(lef: Option<Word>, rit: Option<Word>, flg: Flags, ctx: Context) {
    && !flg.overwrite && !flg.nofork && !flg.amp
    && (if lef.Some? then Plain(lef.value) && !ctx.pin && !(ctx.here && flg.read) else !flg.read)
    && (if rit.Some? then
          Plain(rit.value) && rit.value != "!" && !ctx.pout && !(ctx.pdiag && flg.stderr)
        else !flg.append && !flg.stderr)
  }

  /** Trees whose precedence needs no parentheses but those they have, of ordinary words. A list may
      begin with an empty command, as the parser has it where a separator ends what it was given. */
  predicate Normal(t: Tree, ctx: Context) {
    match t
    case Nil => false
    case Command(av, lef, rit, flg) =>
      && av != [] && (forall i :: 0 <= i < |av| ==> Plain(av[i])) && !Special([av[0]]) && av[0] != "else"
      && NormalTo(lef, rit, flg, ctx)
    case Paren(spr, lef, rit, flg) => Normal(spr, INSIDE) && NormalTo(lef, rit, flg, ctx)
    case Pipe(car, cdr, flg) =>
      && flg == PLAIN && Level(car) == 0 && Level(cdr) <= 1
      && Normal(car, ctx.(pout := true)) && Normal(cdr, ctx.(pin := true))
    case And(car, cdr) => Level(car) <= 1 && Level(cdr) <= 2 && Normal(car, ctx) && Normal(cdr, ctx)
    case Or(car, cdr) => Level(car) <= 2 && Level(cdr) <= 3 && Normal(car, ctx) && Normal(cdr, ctx)
    case List(car, cdr) => Level(car) <= 3 && (car.Nil? || Normal(car, ctx)) && Normal(cdr, ctx)
  }

  predicate EmptyFirst(t: Tree) {
    t.List? && t.car.Nil?
  }

  /** No parentheses begin with an empty command, which is written as a separator right after (. */
  predicate Readable(t: Tree) {
    match t
    case Nil => true
    case Command(_, _, _, _) => true
    case Paren(spr, _, _, _) => !EmptyFirst(spr) && Readable(spr)
    case Pipe(car, cdr, _) => Readable(car) && Readable(cdr)
    case And(car, cdr) => Readable(car) && Readable(cdr)
    case Or(car, cdr) => Readable(car) && Readable(cdr)
    case List(car, cdr) => Readable(car) && Readable(cdr)
  }

  /** A tree without empty commands. */
  function Collapsed(t: Tree): Tree {
    match t
    case Nil => Nil
    case Command(_, _, _, _) => t
    case Paren(spr, lef, rit, flg) => Paren(Collapsed(spr), lef, rit, flg)
    case Pipe(car, cdr, flg) => Pipe(Collapsed(car), Collapsed(cdr), flg)
    case And(car, cdr) => And(Collapsed(car), Collapsed(cdr))
    case Or(car, cdr) => Or(Collapsed(car), Collapsed(cdr))
    case List(car, cdr) => if car.Nil? then Collapsed(cdr) else List(Collapsed(car), Collapsed(cdr))
  }

  /** A tree without the marks of last commands in parentheses, which depend on what follows. */
  function Unmarked(t: Tree): Tree {
    match t
    case Nil => Nil
    case Command(av, lef, rit, flg) => Command(av, lef, rit, flg.(nofork := false))
    case Paren(spr, lef, rit, flg) => Paren(Unmarked(spr), lef, rit, flg.(nofork := false))
    case Pipe(car, cdr, flg) => Pipe(Unmarked(car), Unmarked(cdr), flg)
    case And(car, cdr) => And(Unmarked(car), Unmarked(cdr))
    case Or(car, cdr) => Or(Unmarked(car), Unmarked(cdr))
    case List(car, cdr) => List(Unmarked(car), Unmarked(cdr))
  }

  /** Parsing what a tree was written as: the tree again, if it is readable, else an error. */
  predicate Gives(r: Parsed, t: Tree) {
    if Readable(t) then r.Ok? && Unmarked(r.tree) == Collapsed(t) else r.Err?
  }

  // ---- Scanning what was written ----

  /** Words over which a scan comes out at the depth it went in at, and never below it. */
  predicate Even(ws: seq<Word>, l: int, low: int) {
    if ws == [] then l == low else Bump(l, ws[0]) >= low && Even(ws[1..], Bump(l, ws[0]), low)
  }

  lemma {:induction false} EvenConcat(a: seq<Word>, b: seq<Word>, l: int, low: int)
    requires Even(a, l, low)
    ensures Even(a + b, l, low) <==> Even(b, low, low)
  {
    if a == [] {
      assert a + b == b;
    } else {
      assert (a + b)[1..] == a[1..] + b;
      EvenConcat(a[1..], b, Bump(l, a[0]), low);
    }
  }

  lemma {:induction false} EvenNested(ws: seq<Word>, l: int)
    ensures Nested(ws, l) <==> Even(ws, l, 0)
  {
    if ws != [] { EvenNested(ws[1..], Bump(l, ws[0])); }
  }

  /** Moving a scan to another depth. */
  lemma {:induction false} EvenMoved(ws: seq<Word>, l: int, low: int, d: int)
    requires Even(ws, l, low)
    ensures Even(ws, l + d, low + d)
  {
    if ws != [] {
      assert Bump(l + d, ws[0]) == Bump(l, ws[0]) + d;
      EvenMoved(ws[1..], Bump(l, ws[0]), low, d);
    }
  }

  /** Plain words and redirections have no parenthesis. */
  lemma {:induction false} FlatEven(ws: seq<Word>, l: int)
    requires forall i :: 0 <= i < |ws| ==> At(ws[i], 0) != '(' && At(ws[i], 0) != ')'
    ensures Even(ws, l, l)
  {
    if ws != [] { FlatEven(ws[1..], l); }
  }

  lemma {:induction false} WordsEven(t: Tree, ctx: Context)
    requires Normal(t, ctx)
    ensures Even(Words(t), 0, 0)
  {
    match t
    case Command(av, lef, rit, flg) => FlatEven(Words(t), 0);
    case Paren(spr, lef, rit, flg) =>
      WordsEven(spr, INSIDE);
      ParenEven(Words(spr), Redirections(lef, rit, flg));
    case Pipe(car, cdr, _) =>
      WordsEven(car, ctx.(pout := true));
      WordsEven(cdr, ctx.(pin := true));
      JoinedEven(Words(car), "|", Words(cdr));
    case And(car, cdr) =>
      WordsEven(car, ctx);
      WordsEven(cdr, ctx);
      JoinedEven(Words(car), "&&", Words(cdr));
    case Or(car, cdr) =>
      WordsEven(car, ctx);
      WordsEven(cdr, ctx);
      JoinedEven(Words(car), "||", Words(cdr));
    case List(car, cdr) =>
      if !car.Nil? { WordsEven(car, ctx); }
      WordsEven(cdr, ctx);
      JoinedEven(Words(car), ";", Words(cdr));
  }

  lemma JoinedEven(a: seq<Word>, w: Word, b: seq<Word>)
    requires Even(a, 0, 0) && Even(b, 0, 0) && At(w, 0) != '(' && At(w, 0) != ')'
    ensures Even(a + [w] + b, 0, 0)
  {
    EvenConcat(a, [w] + b, 0, 0);
    assert ([w] + b)[1..] == b;
    assert a + ([w] + b) == a + [w] + b;
  }

  lemma ParenEven(inner: seq<Word>, rest: seq<Word>)
    requires Even(inner, 0, 0)
    requires forall i :: 0 <= i < |rest| ==> At(rest[i], 0) != '(' && At(rest[i], 0) != ')'
    ensures Even(["("] + inner + [")"] + rest, 0, 0)
  {
    hide Even;
    FlatEven(rest, 0);
    assert ([")"] + rest)[1..] == rest;
    LowerEven(inner, [")"] + rest);
    Opened(inner + ([")"] + rest));
    assert ["("] + inner + [")"] + rest == ["("] + (inner + ([")"] + rest));
  }

  lemma Opened(ws: seq<Word>)
    requires Even(ws, 1, 0)
    ensures Even(["("] + ws, 0, 0)
  {
    assert (["("] + ws)[1..] == ws;
  }

  /** One level down, then a closing parenthesis. */
  lemma LowerEven(inner: seq<Word>, rest: seq<Word>)
    requires Even(inner, 0, 0) && rest != [] && At(rest[0], 0) == ')' && Even(rest[1..], 0, 0)
    ensures Even(inner + rest, 1, 0)
  {
    EvenMoved(inner, 0, 0, 1);
    Lowered(inner, rest, 1);
  }

  lemma {:induction false} Lowered(inner: seq<Word>, rest: seq<Word>, l: int)
    requires Even(inner, l, 1) && rest != [] && At(rest[0], 0) == ')' && Even(rest[1..], 0, 0)
    ensures Even(inner + rest, l, 0)
  {
    if inner == [] {
      assert inner + rest == rest;
    } else {
      assert (inner + rest)[1..] == inner[1..] + rest;
      Lowered(inner[1..], rest, Bump(l, inner[0]));
    }
  }

  // ---- Looking for separators ----

  lemma {:induction false} NoneSeparates(ws: seq<Word>, l: int, sep: Separator)
    requires forall i :: 0 <= i < |ws| ==> !Separates(sep, ws[i])
    ensures Find(ws, l, sep) == |ws|
  {
    if ws != [] { NoneSeparates(ws[1..], Bump(l, ws[0]), sep); }
  }

  lemma {:induction false} FindConcat(a: seq<Word>, b: seq<Word>, l: int, sep: Separator)
    requires Even(a, l, 0) && Find(a, l, sep) == |a|
    ensures Find(a + b, l, sep) == |a| + Find(b, 0, sep)
  {
    if a == [] {
      assert a + b == b;
    } else {
      assert (a + b)[1..] == a[1..] + b;
      FindConcat(a[1..], b, Bump(l, a[0]), sep);
    }
  }

  /** Nothing separates inside parentheses. */
  lemma {:induction false} FindInside(a: seq<Word>, b: seq<Word>, l: int, sep: Separator)
    requires Even(a, l, 1) && l >= 1
    ensures Find(a + b, l, sep) == |a| + Find(b, 1, sep)
  {
    if a == [] {
      assert a + b == b;
    } else {
      assert (a + b)[1..] == a[1..] + b;
      FindInside(a[1..], b, Bump(l, a[0]), sep);
    }
  }

  lemma FindParen(inner: seq<Word>, rest: seq<Word>, sep: Separator)
    requires Even(inner, 0, 0) && forall i :: 0 <= i < |rest| ==> !Separates(sep, rest[i])
    ensures var ws := ["("] + inner + [")"] + rest; Find(ws, 0, sep) == |ws|
  {
    var ws := ["("] + inner + [")"] + rest;
    assert ws[1..] == inner + ([")"] + rest);
    EvenMoved(inner, 0, 0, 1);
    FindInside(inner, [")"] + rest, 1, sep);
    assert ([")"] + rest)[1..] == rest;
    NoneSeparates(rest, 0, sep);
  }

  /** The separator between two parts is found, if it is one, and there is none before it. */
  lemma FindJoined(a: seq<Word>, w: Word, b: seq<Word>, sep: Separator)
    requires Even(a, 0, 0) && Find(a, 0, sep) == |a| && At(w, 0) != '(' && At(w, 0) != ')'
    ensures var ws := a + [w] + b;
      && Find(ws, 0, sep) == (if Separates(sep, w) then |a| else |a| + 1 + Find(b, 0, sep))
      && ws[..|a|] == a && ws[|a| + 1..] == b
  {
    FindConcat(a, [w] + b, 0, sep);
    assert ([w] + b)[1..] == b;
    assert a + ([w] + b) == a + [w] + b;
  }

  function Rank(sep: Separator): nat {
    match sep
    case Bar => 1
    case AndAnd => 2
    case OrOr => 3
    case Semi => 4
  }

  lemma RedirectionsOrdinary(lef: Option<Word>, rit: Option<Word>, flg: Flags, ctx: Context)
    requires NormalTo(lef, rit, flg, ctx)
    ensures var ws := Redirections(lef, rit, flg);
      forall i :: 0 <= i < |ws| ==>
        && At(ws[i], 0) !in ['(', ')', '|', ';', '\n'] && (At(ws[i], 0) == '&' ==> ws[i] == "&" && i > 0 && TakesAmp(ws[i - 1]))
  {
  }

  lemma RedirectionsFind(lef: Option<Word>, rit: Option<Word>, flg: Flags, ctx: Context, sep: Separator)
    requires NormalTo(lef, rit, flg, ctx)
    ensures var ws := Redirections(lef, rit, flg); forall i :: 0 <= i < |ws| ==> !Separates(sep, ws[i])
  {
    RedirectionsOrdinary(lef, rit, flg, ctx);
  }

  lemma CommandFind(av: seq<Word>, lef: Option<Word>, rit: Option<Word>, flg: Flags, ctx: Context, sep: Separator)
    requires NormalTo(lef, rit, flg, ctx) && forall i :: 0 <= i < |av| ==> Plain(av[i])
    ensures var ws := av + Redirections(lef, rit, flg); Find(ws, 0, sep) == |ws|
  {
    hide Redirections, NormalTo;
    RedirectionsFind(lef, rit, flg, ctx, sep);
    NoneSeparates(av + Redirections(lef, rit, flg), 0, sep);
  }

  lemma SeparatesTheRest()
    ensures forall sep: Separator :: Rank(sep) > 1 ==> !Separates(sep, "|")
    ensures forall sep: Separator :: Rank(sep) > 2 ==> !Separates(sep, "&&")
    ensures forall sep: Separator :: Rank(sep) > 3 ==> !Separates(sep, "||")
  {
  }

  /** A tree has no separator outside its parentheses that binds looser than it does. */
  lemma {:induction false} WordsFind(t: Tree, ctx: Context, sep: Separator)
    requires Normal(t, ctx) && Level(t) < Rank(sep)
    ensures Find(Words(t), 0, sep) == |Words(t)|
  {
    hide Find, Even, NormalTo, Separates;
    SeparatesTheRest();
    match t
    case Command(av, lef, rit, flg) => CommandFind(av, lef, rit, flg, ctx, sep);
    case Paren(spr, lef, rit, flg) =>
      RedirectionsFind(lef, rit, flg, ctx, sep);
      WordsEven(spr, INSIDE);
      FindParen(Words(spr), Redirections(lef, rit, flg), sep);
    case Pipe(car, cdr, _) =>
      WordsEven(car, ctx.(pout := true));
      WordsFind(car, ctx.(pout := true), sep);
      WordsFind(cdr, ctx.(pin := true), sep);
      FindJoined(Words(car), "|", Words(cdr), sep);
    case And(car, cdr) =>
      WordsEven(car, ctx);
      WordsFind(car, ctx, sep);
      WordsFind(cdr, ctx, sep);
      FindJoined(Words(car), "&&", Words(cdr), sep);
    case Or(car, cdr) =>
      WordsEven(car, ctx);
      WordsFind(car, ctx, sep);
      WordsFind(cdr, ctx, sep);
      FindJoined(Words(car), "||", Words(cdr), sep);
    case List(car, cdr) =>
  }

  // ---- No background ----

  /** An & by itself comes only after a redirection sign. */
  predicate AmpsTaken(ws: seq<Word>) {
    forall i :: 0 <= i < |ws| && At(ws[i], 0) == '&' && At(ws[i], 1) != '&' ==>
      i > 0 && ws[i] == "&" && TakesAmp(ws[i - 1])
  }

  lemma {:induction false} NoAmpFound(ws: seq<Word>, l: int)
    requires l >= 0 && Nested(ws, l) && AmpsTaken(ws)
    ensures FindAmp(ws, l) == NoAmp
    decreases |ws|
  {
    if ws != [] {
      if TakesAmp(ws[0]) && |ws| > 1 && ws[1] == "&" {
        assert ws[1..][1..] == ws[2..];
        assert forall i :: 0 <= i < |ws| - 2 ==> ws[2..][i] == ws[i + 2];
        assert AmpsTaken(ws[2..]) by {
          forall i | 0 <= i < |ws[2..]| && At(ws[2..][i], 0) == '&' && At(ws[2..][i], 1) != '&'
            ensures i > 0 && ws[2..][i] == "&" && TakesAmp(ws[2..][i - 1])
          {
            assert TakesAmp(ws[i + 1]);
          }
        }
        NoAmpFound(ws[2..], l);
      } else {
        assert AmpsTaken(ws[1..]) by {
          forall i | 0 <= i < |ws[1..]| && At(ws[1..][i], 0) == '&' && At(ws[1..][i], 1) != '&'
            ensures i > 0 && ws[1..][i] == "&" && TakesAmp(ws[1..][i - 1])
          {
            assert ws[i + 1] == ws[1..][i] && TakesAmp(ws[i]);
          }
        }
        NoAmpFound(ws[1..], Bump(l, ws[0]));
      }
    }
  }

  lemma AmpsConcat(a: seq<Word>, b: seq<Word>)
    requires AmpsTaken(a) && AmpsTaken(b)
    ensures AmpsTaken(a + b)
  {
    var ws := a + b;
    forall i | 0 <= i < |ws| && At(ws[i], 0) == '&' && At(ws[i], 1) != '&'
      ensures i > 0 && ws[i] == "&" && TakesAmp(ws[i - 1])
    {
      if i >= |a| {
        assert b[i - |a|] == ws[i] && TakesAmp(b[i - |a| - 1]);
      } else {
        assert a[i] == ws[i];
      }
    }
  }

  lemma AmpsJoined(a: seq<Word>, w: Word, b: seq<Word>)
    requires AmpsTaken(a) && AmpsTaken(b) && !(At(w, 0) == '&' && At(w, 1) != '&')
    ensures AmpsTaken(a + [w] + b)
  {
    AmpsConcat(a, [w]);
    AmpsConcat(a + [w], b);
  }

  lemma {:induction false} WordsAmps(t: Tree, ctx: Context)
    requires Normal(t, ctx)
    ensures AmpsTaken(Words(t))
  {
    hide AmpsTaken;
    match t
    case Command(av, lef, rit, flg) =>
      RedirectionAmps(lef, rit, flg, ctx);
      PlainAmps(av);
      AmpsConcat(av, Redirections(lef, rit, flg));
    case Paren(spr, lef, rit, flg) =>
      WordsAmps(spr, INSIDE);
      RedirectionAmps(lef, rit, flg, ctx);
      PlainAmps([]);
      AmpsJoined([], "(", Words(spr));
      AmpsJoined([] + ["("] + Words(spr), ")", Redirections(lef, rit, flg));
      assert [] + ["("] + Words(spr) == ["("] + Words(spr);
    case Pipe(car, cdr, _) =>
      WordsAmps(car, ctx.(pout := true));
      WordsAmps(cdr, ctx.(pin := true));
      AmpsJoined(Words(car), "|", Words(cdr));
    case And(car, cdr) =>
      WordsAmps(car, ctx);
      WordsAmps(cdr, ctx);
      AmpsJoined(Words(car), "&&", Words(cdr));
    case Or(car, cdr) =>
      WordsAmps(car, ctx);
      WordsAmps(cdr, ctx);
      AmpsJoined(Words(car), "||", Words(cdr));
    case List(car, cdr) =>
      if car.Nil? { PlainAmps([]); } else { WordsAmps(car, ctx); }
      WordsAmps(cdr, ctx);
      AmpsJoined(Words(car), ";", Words(cdr));
  }

  lemma PlainAmps(ws: seq<Word>)
    requires forall i :: 0 <= i < |ws| ==> Plain(ws[i])
    ensures AmpsTaken(ws)
  {
  }

  lemma RedirectionAmps(lef: Option<Word>, rit: Option<Word>, flg: Flags, ctx: Context)
    requires NormalTo(lef, rit, flg, ctx)
    ensures AmpsTaken(Redirections(lef, rit, flg))
  {
    RedirectionsOrdinary(lef, rit, flg, ctx);
  }

  // ---- Gathering words, parentheses and redirections ----

  lemma {:induction false} FillPlain(ws: seq<Word>, p: nat, q: nat, s: State, ctx: Context)
    requires p <= q <= |ws| && s.l == 0 && forall i :: p <= i < q ==> Plain(ws[i])
    ensures Fill(ws, p, s, false, ctx) == Fill(ws, q, s.(av := s.av + ws[p..q]), false, ctx)
    decreases q - p
  {
    if p == q {
      assert s.av + ws[p..q] == s.av;
    } else {
      FillPlain(ws, p + 1, q, Keep(s, ws[p]), ctx);
      assert s.av + [ws[p]] + ws[p + 1..q] == s.av + ws[p..q];
    }
  }

  lemma {:induction false} FillInside(ws: seq<Word>, p: nat, q: nat, s: State, ctx: Context)
    requires p <= q <= |ws| && s.l >= 1 && Even(ws[p..q], s.l, 1)
    ensures Fill(ws, p, s, false, ctx) == Fill(ws, q, s.(l := 1), false, ctx)
    decreases q - p
  {
    if p < q {
      assert ws[p..q][1..] == ws[p + 1..q];
      FillInside(ws, p + 1, q, s.(l := Bump(s.l, ws[p])), ctx);
    }
  }

  lemma FillIn(ws: seq<Word>, p: nat, s: State, lef: Option<Word>, flg: Flags, ctx: Context)
    requires s.l == 0 && s.lef.None? && !s.flg.read
    requires var r := if lef.Some? then [if flg.read then "<<" else "<", lef.value] else [];
      p + |r| <= |ws| && ws[p..p + |r|] == r
    requires if lef.Some? then Plain(lef.value) && !ctx.pin && !(ctx.here && flg.read) else !flg.read
    ensures Fill(ws, p, s, false, ctx)
         == Fill(ws, if lef.Some? then p + 2 else p, s.(lef := lef, flg := s.flg.(read := flg.read)), false, ctx)
  {
    if lef.Some? {
      var r := [if flg.read then "<<" else "<", lef.value];
      assert ws[p] == ws[p..p + |r|][0] && ws[p + 1] == ws[p..p + |r|][1];
    }
  }

  lemma FillOut(ws: seq<Word>, p: nat, s: State, rit: Option<Word>, flg: Flags, ctx: Context)
    requires s.l == 0 && s.rit.None? && !s.flg.append && !s.flg.stderr && p <= |ws|
    requires ws[p..] ==
      if rit.Some? then [if flg.append then ">>" else ">"] + (if flg.stderr then ["&"] else []) + [rit.value] else []
    requires if rit.Some? then Plain(rit.value) && rit.value != "!" && !ctx.pout && !(ctx.pdiag && flg.stderr)
      else !flg.append && !flg.stderr
    ensures Fill(ws, p, s, false, ctx)
         == Full(s.(rit := rit, flg := s.flg.(append := flg.append, stderr := flg.stderr)))
  {
    if rit.Some? {
      assert ws[p] == ws[p..][0] && ws[p + 1] == ws[p..][1] && (flg.stderr ==> ws[p + 2] == ws[p..][2]);
      assert |ws| == p + (if flg.stderr then 3 else 2);
      assert rit.value != "&";
    }
  }

  lemma FillRedirections(ws: seq<Word>, p: nat, s: State, lef: Option<Word>, rit: Option<Word>, flg: Flags, ctx: Context)
    requires p <= |ws| && ws[p..] == Redirections(lef, rit, flg) && NormalTo(lef, rit, flg, ctx)
    requires s.l == 0 && s.lef.None? && s.rit.None? && s.flg == PLAIN.(nofork := s.flg.nofork)
    ensures Fill(ws, p, s, false, ctx) == Full(s.(lef := lef, rit := rit, flg := flg.(nofork := s.flg.nofork)))
  {
    hide Fill, Plain;
    var k := if lef.Some? then 2 else 0;
    assert ws[p..p + k] == ws[p..][..k];
    FillIn(ws, p, s, lef, flg, ctx);
    assert ws[p + k..] == ws[p..][k..];
    FillOut(ws, p + k, s.(lef := lef, flg := s.flg.(read := flg.read)), rit, flg, ctx);
  }

  // ---- Parsing what was written ----

  lemma {:induction false} FirstWord(t: Tree, ctx: Context)
    requires Normal(t, ctx) && !EmptyFirst(t)
    ensures Words(t) != [] && !Opening(Words(t)[0]) && At(Words(t)[0], 0) != ';'
  {
    match t
    case Command(av, _, _, _) => assert Words(t)[0] == av[0];
    case Paren(_, _, _, _) =>
    case Pipe(car, cdr, _) => FirstWord(car, ctx.(pout := true));
    case And(car, cdr) => FirstWord(car, ctx);
    case Or(car, cdr) => FirstWord(car, ctx);
    case List(car, cdr) => FirstWord(car, ctx);
  }

  lemma WordsNested(t: Tree, ctx: Context)
    requires Normal(t, ctx)
    ensures Nested(Words(t), 0)
  {
    WordsEven(t, ctx);
    EvenNested(Words(t), 0);
  }

  lemma BackCommand(t: Tree, close: bool, ctx: Context)
    requires Normal(t, ctx) && t.Command? && Nested(Words(t), 0)
    ensures Gives(Syn3(Words(t), close, ctx), t)
  {
    hide Fill;
    var Command(av, lef, rit, flg) := t;
    var ws := Words(t);
    assert ws[0] == av[0] && ws[..|av|] == av && ws[|av|..] == Redirections(lef, rit, flg);
    FillPlain(ws, 0, |av|, Start(close), ctx);
    assert [] + ws[0..|av|] == av;
    FillRedirections(ws, |av|, Start(close).(av := av), lef, rit, flg, ctx);
  }

  /** What syn3 gathers of a command in parentheses. */
  lemma FillParen(inner: seq<Word>, lef: Option<Word>, rit: Option<Word>, flg: Flags, close: bool, ctx: Context)
    requires NormalTo(lef, rit, flg, ctx) && Even(inner, 0, 0)
    ensures var ws := ["("] + inner + [")"] + Redirections(lef, rit, flg);
      && Fill(ws, 0, Start(close), false, ctx)
      == Full(State([], 1, |inner| + 1, 0, lef, rit, flg.(nofork := close)))
      && ws[1..|inner| + 1] == inner
  {
    hide Fill, Even, Redirections, NormalTo;
    var rest := Redirections(lef, rit, flg);
    var ws := ["("] + inner + [")"] + rest;
    var n := |inner|;
    assert ws[1..n + 1] == inner && ws[0] == "(" && ws[n + 1] == ")" && ws[n + 2..] == rest;
    EvenMoved(inner, 0, 0, 1);
    var s1 := Start(close).(lp := 1, l := 1);
    var s2 := s1.(l := 0, rp := n + 1);
    FillOpening(ws, Start(close), ctx);
    FillInside(ws, 1, n + 1, s1, ctx);
    FillClosing(ws, n + 1, s1, ctx);
    FillRedirections(ws, n + 2, s2, lef, rit, flg, ctx);
  }

  lemma FillOpening(ws: seq<Word>, s: State, ctx: Context)
    requires ws != [] && ws[0] == "(" && s.l == 0 && s.lp == -1
    ensures Fill(ws, 0, s, false, ctx) == Fill(ws, 1, s.(lp := 1, l := 1), false, ctx)
  {
  }

  lemma FillClosing(ws: seq<Word>, p: nat, s: State, ctx: Context)
    requires p < |ws| && ws[p] == ")" && s.l == 1
    ensures Fill(ws, p, s, false, ctx) == Fill(ws, p + 1, s.(l := 0, rp := p), false, ctx)
  {
  }

  lemma BackParen(t: Tree, close: bool, ctx: Context)
    requires Normal(t, ctx) && t.Paren? && Nested(Words(t), 0)
    requires var r := Syn0(Words(t.spr), true, INSIDE); if EmptyFirst(t.spr) then r.Err? else Gives(r, t.spr)
    ensures Gives(Syn3(Words(t), close, ctx), t)
  {
    hide Fill, NormalTo, Redirections, Syn0;
    var Paren(spr, lef, rit, flg) := t;
    WordsEven(spr, INSIDE);
    FillParen(Words(spr), lef, rit, flg, close, ctx);
    Marks(flg, close, lef, rit, ctx);
  }

  /** Only the mark of last commands is not that of the tree. */
  lemma Marks(flg: Flags, close: bool, lef: Option<Word>, rit: Option<Word>, ctx: Context)
    requires NormalTo(lef, rit, flg, ctx)
    ensures flg.(nofork := close).(nofork := false) == flg
  {
  }

  lemma {:induction false} Back3(t: Tree, close: bool, ctx: Context)
    requires Normal(t, ctx) && Level(t) == 0
    ensures Nested(Words(t), 0) && Gives(Syn3(Words(t), close, ctx), t)
    decreases t, 0
  {
    hide Syn3, Syn0, Gives, NormalTo, Nested;
    WordsNested(t, ctx);
    if t.Command? {
      BackCommand(t, close, ctx);
    } else {
      if EmptyFirst(t.spr) {
        NothingFirst(t.spr, true, INSIDE);
      } else {
        Back0(t.spr, true, INSIDE);
      }
      BackParen(t, close, ctx);
    }
  }


  lemma {:induction false} Back2(t: Tree, close: bool, ctx: Context)
    requires Normal(t, ctx) && Level(t) <= 1
    ensures Nested(Words(t), 0) && Gives(Syn2(Words(t), close, ctx), t)
    decreases t, 1
  {
    hide Find, Nested, Even;
    WordsNested(t, ctx);
    if Level(t) == 0 {
      WordsFind(t, ctx, Bar);
      Back3(t, close, ctx);
    } else {
      var Pipe(car, cdr, _) := t;
      var c1, c2 := ctx.(pout := true), ctx.(pin := true);
      WordsEven(car, c1);
      WordsFind(car, c1, Bar);
      FindJoined(Words(car), "|", Words(cdr), Bar);
      FirstWord(cdr, c2);
      assert Words(t)[|Words(car)| + 1] == Words(cdr)[0];
      Back3(car, false, c1);
      Back2(cdr, close, c2);
    }
  }

  lemma {:induction false} Back1b(t: Tree, close: bool, ctx: Context)
    requires Normal(t, ctx) && Level(t) <= 2
    ensures Nested(Words(t), 0) && Gives(Syn1b(Words(t), close, ctx), t)
    decreases t, 2
  {
    hide Find, Nested, Even;
    WordsNested(t, ctx);
    if Level(t) <= 1 {
      WordsFind(t, ctx, AndAnd);
      Back2(t, close, ctx);
    } else {
      WordsEven(t.car, ctx);
      WordsFind(t.car, ctx, AndAnd);
      FindJoined(Words(t.car), "&&", Words(t.cdr), AndAnd);
      Back2(t.car, false, ctx);
      Back1b(t.cdr, close, ctx);
    }
  }

  lemma {:induction false} Back1a(t: Tree, close: bool, ctx: Context)
    requires Normal(t, ctx) && Level(t) <= 3
    ensures Nested(Words(t), 0) && Gives(Syn1a(Words(t), close, ctx), t)
    decreases t, 3
  {
    hide Find, Nested, Even;
    WordsNested(t, ctx);
    if Level(t) <= 2 {
      WordsFind(t, ctx, OrOr);
      Back1b(t, close, ctx);
    } else {
      WordsEven(t.car, ctx);
      WordsFind(t.car, ctx, OrOr);
      FindJoined(Words(t.car), "||", Words(t.cdr), OrOr);
      Back1b(t.car, false, ctx);
      Back1a(t.cdr, close, ctx);
    }
  }

  /** Nothing is left of a command before the separator. */
  lemma NothingFirst(t: Tree, close: bool, ctx: Context)
    requires Normal(t, ctx) && EmptyFirst(t)
    ensures Syn0(Words(t), close, ctx) == Err(NullCom)
  {
    hide Nested, AmpsTaken, FindAmp, Normal, Syn1a;
    WordsNested(t, ctx);
    WordsAmps(t, ctx);
    var ws := Words(t);
    NoAmpFound(ws, 0);
    assert ws[0] == ";" && Find(ws, 0, Semi) == 0;
    assert ws[..0] == [];
    NoCommand(ctx);
  }

  lemma NoCommand(ctx: Context)
    ensures Syn1a([], false, ctx) == Err(NullCom)
  {
    assert Syn3([], false, ctx) == Err(NullCom);
    assert Syn2([], false, ctx) == Syn3([], false, ctx);
    assert Syn1b([], false, ctx) == Syn2([], false, ctx);
  }

  lemma {:induction false} CollapsedNotNil(t: Tree, ctx: Context)
    requires Normal(t, ctx)
    ensures !Collapsed(t).Nil?
  {
    if EmptyFirst(t) { CollapsedNotNil(t.cdr, ctx); }
  }

  lemma ListBack(t: Tree, ctx: Context, a: Parsed, b: Parsed)
    requires t.List? && !t.car.Nil? && Normal(t, ctx) && Gives(a, t.car) && Gives(b, t.cdr)
    ensures a.Ok? && b.Ok? ==> !b.tree.Nil?
    ensures Gives(if a.Err? then a else if b.Err? then b else Ok(List(a.tree, b.tree)), t)
  {
    CollapsedNotNil(t.cdr, ctx);
  }

  lemma {:induction false} Back1(t: Tree, close: bool, ctx: Context)
    requires Normal(t, ctx) && !EmptyFirst(t)
    ensures Nested(Words(t), 0) && Gives(Syn1(Words(t), close, ctx), t)
    decreases t, 4
  {
    hide Find, Nested, Even, Gives;
    WordsNested(t, ctx);
    if Level(t) <= 3 {
      WordsFind(t, ctx, Semi);
      Back1a(t, close, ctx);
    } else {
      WordsEven(t.car, ctx);
      WordsFind(t.car, ctx, Semi);
      FindJoined(Words(t.car), ";", Words(t.cdr), Semi);
      Back1a(t.car, false, ctx);
      Back(t.cdr, close, ctx);
      ListBack(t, ctx, Syn1a(Words(t.car), false, ctx), Syntax(Words(t.cdr), close, ctx));
    }
  }


  lemma {:induction false} Back0(t: Tree, close: bool, ctx: Context)
    requires Normal(t, ctx) && !EmptyFirst(t)
    ensures Gives(Syn0(Words(t), close, ctx), t)
    decreases t, 5
  {
    WordsNested(t, ctx);
    WordsAmps(t, ctx);
    NoAmpFound(Words(t), 0);
    Back1(t, close, ctx);
  }

  /** The words a normal tree is written as parse to that tree, without its empty commands, just when it
      has none right inside parentheses. */
  lemma {:induction false} Back(t: Tree, close: bool, ctx: Context)
    requires Normal(t, ctx)
    ensures Gives(Syntax(Words(t), close, ctx), t)
    decreases t, 6
  {
    if EmptyFirst(t) {
      assert Words(t)[0] == ";" && Words(t)[1..] == Words(t.cdr);
      assert Skip(Words(t)) == Skip(Words(t.cdr)) && (Readable(t) <==> Readable(t.cdr));
      Back(t.cdr, close, ctx);
    } else {
      FirstWord(t, ctx);
      Back0(t, close, ctx);
    }
  }
}
