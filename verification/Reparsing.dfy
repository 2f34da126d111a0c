/** The other direction of the round trip: what the shell parses is, up to marks of last commands, a
    tree in normal form; and when writing it out and parsing it again changes nothing. */
module Reparsing {
  import opened Basics
  import opened Grammar
  import opened RoundTrip

  /** No lone &, no ! and no keyword. */
  predicate OrdinaryWord(w: Word) {
    && (At(w, 0) == '&' ==> At(w, 1) == '&')
    && w !in ["!", "else", "@", "exit", "foreach", "if", "set", "switch", "while"]
  }

  predicate Ordinary(ws: seq<Word>) {
    forall i :: 0 <= i < |ws| ==> OrdinaryWord(ws[i])
  }

  /** Marks are not written, and do not change how a tree binds. */
  lemma {:induction false} Unmarks(t: Tree)
    ensures Words(Unmarked(t)) == Words(t) && Level(Unmarked(t)) == Level(t) && (Readable(Unmarked(t)) <==> Readable(t))
  {
    hide Redirections;
    match t
    case Nil =>
    case Command(_, lef, rit, flg) => MarkNotWritten(lef, rit, flg);
    case Paren(spr, lef, rit, flg) => Unmarks(spr); MarkNotWritten(lef, rit, flg);
    case Pipe(car, cdr, _) => Unmarks(car); Unmarks(cdr);
    case And(car, cdr) => Unmarks(car); Unmarks(cdr);
    case Or(car, cdr) => Unmarks(car); Unmarks(cdr);
    case List(car, cdr) => Unmarks(car); Unmarks(cdr);
  }

  lemma MarkNotWritten(lef: Option<Word>, rit: Option<Word>, flg: Flags)
    ensures Redirections(lef, rit, flg.(nofork := false)) == Redirections(lef, rit, flg)
  {
  }

  lemma OrdinaryParts(ws: seq<Word>, k: nat)
    requires Ordinary(ws) && k < |ws|
    ensures Ordinary(ws[..k]) && Ordinary(ws[k + 1..])
  {
    var b := ws[k + 1..];
    forall i | 0 <= i < |b| ensures OrdinaryWord(b[i]) { assert OrdinaryWord(ws[k + 1 + i]); }
  }

  // ---- Where separators are not ----

  /** No separator that binds looser than rank n, outside parentheses. */
  predicate Free(ws: seq<Word>, n: nat) {
    && (n < 4 ==> Find(ws, 0, Semi) == |ws|)
    && (n < 3 ==> Find(ws, 0, OrOr) == |ws|)
    && (n < 2 ==> Find(ws, 0, AndAnd) == |ws|)
    && (n < 1 ==> Find(ws, 0, Bar) == |ws|)
  }

  lemma {:induction false} FindBefore(ws: seq<Word>, l: int, sep: Separator, k: nat)
    requires k <= Find(ws, l, sep)
    ensures Find(ws[..k], l, sep) == k
  {
    if k > 0 {
      assert ws[..k][1..] == ws[1..][..k - 1];
      FindBefore(ws[1..], Bump(l, ws[0]), sep, k - 1);
    }
  }

  /** Both sides of the first separator of a kind are as free of others as the whole. */
  lemma Halves(ws: seq<Word>, sep: Separator, other: Separator)
    requires Nested(ws, 0) && Find(ws, 0, sep) < |ws| && Find(ws, 0, other) == |ws|
    ensures var k := Find(ws, 0, sep);
      Find(ws[..k], 0, other) == k && Find(ws[k + 1..], 0, other) == |ws| - k - 1
  {
    hide Find, Nested, Even;
    var k := Find(ws, 0, sep);
    FindBefore(ws, 0, other, k);
    EvenNested(ws[..k], 0);
    FindJoined(ws[..k], ws[k], ws[k + 1..], other);
    assert ws[..k] + [ws[k]] + ws[k + 1..] == ws;
  }

  lemma SplitFree(ws: seq<Word>, sep: Separator)
    requires Nested(ws, 0) && Find(ws, 0, sep) < |ws| && Free(ws, Rank(sep))
    ensures var k := Find(ws, 0, sep);
      && Nested(ws[..k], 0) && Nested(ws[k + 1..], 0)
      && Free(ws[..k], Rank(sep) - 1) && Free(ws[k + 1..], Rank(sep))
  {
    hide Find, Nested;
    FindBefore(ws, 0, sep, Find(ws, 0, sep));
    if Rank(sep) < 4 { Halves(ws, sep, Semi); }
    if Rank(sep) < 3 { Halves(ws, sep, OrOr); }
    if Rank(sep) < 2 { Halves(ws, sep, AndAnd); }
  }

  lemma Tighter(ws: seq<Word>, sep: Separator)
    requires Free(ws, Rank(sep)) && Find(ws, 0, sep) == |ws|
    ensures Free(ws, Rank(sep) - 1)
  {
  }

  lemma NothingLooser(ws: seq<Word>)
    ensures Free(ws, 4)
  {
  }

  /** No separator at all, outside parentheses. */
  predicate Clean(ws: seq<Word>, l: int) {
    ws == [] || ((l == 0 ==> At(ws[0], 0) !in ['|', '&', ';', '\n']) && Clean(ws[1..], Bump(l, ws[0])))
  }

  lemma {:induction false} FreeClean(ws: seq<Word>, l: int)
    requires Ordinary(ws) && Find(ws, l, Semi) == Find(ws, l, AndAnd) == Find(ws, l, Bar) == |ws|
    ensures Clean(ws, l)
  {
    if ws != [] {
      assert OrdinaryWord(ws[0]);
      assert Ordinary(ws[1..]);
      FreeClean(ws[1..], Bump(l, ws[0]));
    }
  }

  lemma CleanFrom(ws: seq<Word>, p: nat, l: int)
    requires p < |ws| && Clean(ws[p..], l)
    ensures Clean(ws[p + 1..], Bump(l, ws[p])) && (l == 0 ==> At(ws[p], 0) !in ['|', '&', ';', '\n'])
  {
    assert ws[p..][1..] == ws[p + 1..];
  }

  // ---- What a simple command gathers ----

  /** What has been gathered is ordinary, and could be written out. */
  predicate Good(s: State, ctx: Context) {
    && (forall i :: 0 <= i < |s.av| ==> Plain(s.av[i]) && OrdinaryWord(s.av[i]))
    && NormalTo(s.lef, s.rit, s.flg.(nofork := false), ctx)
  }

  lemma {:induction false} FillGood(ws: seq<Word>, p: nat, s: State, ctx: Context)
    requires p <= |ws| && Ordinary(ws) && Clean(ws[p..], s.l) && Good(s, ctx) && !ctx.pdiag
    ensures var f := Fill(ws, p, s, false, ctx); f.Full? ==> Good(f.s, ctx)
    decreases |ws| - p
  {
    hide Good;
    if p < |ws| {
      var w := ws[p];
      var c := At(w, 0);
      CleanFrom(ws, p, s.l);
      if c == '(' && s.l == 0 && s.lp != -1 {
      } else if c == '(' || c == ')' {
        GoodParenthesis(s, p, w, ctx);
        FillGood(ws, p + 1, Parenthesis(s, p, w, false), ctx);
      } else if (c == '>' || c == '<') && s.l == 0 {
        var r := if c == '>' then RedirectOut(ws, p, s, ctx) else RedirectIn(ws, p, s, ctx);
        if r.Taken? {
          GoodRedirection(ws, p, s, ctx);
          FillGood(ws, r.next, r.s, ctx);
        }
      } else if s.l != 0 {
        FillGood(ws, p + 1, s, ctx);
      } else {
        assert OrdinaryWord(w);
        GoodKeep(s, w, ctx);
        FillGood(ws, p + 1, Keep(s, w), ctx);
      }
    }
  }

  lemma GoodParenthesis(s: State, p: nat, w: Word, ctx: Context)
    requires Good(s, ctx)
    ensures Good(Parenthesis(s, p, w, false), ctx)
  {
  }

  lemma GoodKeep(s: State, w: Word, ctx: Context)
    requires Good(s, ctx) && Plain(w) && OrdinaryWord(w)
    ensures Good(Keep(s, w), ctx)
  {
  }

  lemma GoodRedirection(ws: seq<Word>, p: nat, s: State, ctx: Context)
    requires p < |ws| && Ordinary(ws) && Clean(ws[p..], 0) && s.l == 0 && Good(s, ctx) && !ctx.pdiag
    requires At(ws[p], 0) == '>' || At(ws[p], 0) == '<'
    requires (if At(ws[p], 0) == '>' then RedirectOut(ws, p, s, ctx) else RedirectIn(ws, p, s, ctx)).Taken?
    ensures var r := if At(ws[p], 0) == '>' then RedirectOut(ws, p, s, ctx) else RedirectIn(ws, p, s, ctx);
      Good(r.s, ctx) && Clean(ws[r.next..], 0)
  {
    hide Clean;
    CleanFrom(ws, p, 0);
    assert OrdinaryWord(ws[p + 1]);
    CleanFrom(ws, p + 1, 0);
  }

  // ---- What is parsed ----

  lemma {:induction false} NoLoneAmp(ws: seq<Word>, l: int)
    requires l >= 0 && Ordinary(ws)
    ensures !FindAmp(ws, l).AmpAt?
    decreases |ws|
  {
    if ws != [] && !(At(ws[0], 0) == ')' && l == 0) {
      assert OrdinaryWord(ws[0]) && (|ws| > 1 ==> OrdinaryWord(ws[1]));
      assert Ordinary(ws[1..]);
      NoLoneAmp(ws[1..], Bump(l, ws[0]));
    }
  }

  predicate NormalForm(r: Parsed, ctx: Context) {
    r.Ok? && !r.tree.Nil? ==> Normal(Unmarked(r.tree), ctx)
  }

  lemma {:induction false} Normal3(ws: seq<Word>, close: bool, ctx: Context)
    requires Ordinary(ws) && Nested(ws, 0) && Free(ws, 0) && !ctx.pdiag
    ensures NormalForm(Syn3(ws, close, ctx), ctx)
    decreases |ws|, 0
  {
    hide Find, Fill, Good, Clean;
    FreeClean(ws, 0);
    assert ws[0..] == ws && !Special(ws);
    FillParens(ws, 0, Start(close), false, ctx);
    GoodStart(close, ctx);
    FillGood(ws, 0, Start(close), ctx);
    var f := Fill(ws, 0, Start(close), false, ctx);
    if f.Full? {
      GoodMeans(f.s, ctx);
      if f.s.lp != -1 {
        Normal0(ws[f.s.lp..f.s.rp], true, INSIDE);
      }
    }
  }

  lemma GoodStart(close: bool, ctx: Context)
    ensures Good(Start(close), ctx)
  {
  }

  lemma GoodMeans(s: State, ctx: Context)
    requires Good(s, ctx)
    ensures NormalTo(s.lef, s.rit, s.flg.(nofork := false), ctx)
    ensures forall i :: 0 <= i < |s.av| ==> Plain(s.av[i])
    ensures s.av != [] ==> !Special([s.av[0]]) && s.av[0] != "else"
  {
    if s.av != [] { assert OrdinaryWord(s.av[0]); }
  }

  lemma {:induction false} Normal2(ws: seq<Word>, close: bool, ctx: Context)
    requires Ordinary(ws) && Nested(ws, 0) && Free(ws, 1) && !ctx.pdiag
    ensures NormalForm(Syn2(ws, close, ctx), ctx)
    decreases |ws|, 1
  {
    hide Nested, Free, Find, Normal, Unmarked, Ordinary, Syn3;
    var k := Find(ws, 0, Bar);
    if k == |ws| {
      Tighter(ws, Bar);
      Normal3(ws, close, ctx);
    } else {
      SplitFree(ws, Bar);
      OrdinaryParts(ws, k);
      NotDiagnostics(ws[k + 1..]);
      var car, cdr := Syn3(ws[..k], false, ctx.(pout := true)), Syn2(ws[k + 1..], close, ctx.(pin := true));
      Normal3(ws[..k], false, ctx.(pout := true));
      Normal2(ws[k + 1..], close, ctx.(pin := true));
      if car.Ok? && cdr.Ok? {
        NormalPipe(car.tree, cdr.tree, ctx);
      }
    }
  }

  lemma NormalPipe(car: Tree, cdr: Tree, ctx: Context)
    requires Normal(Unmarked(car), ctx.(pout := true)) && Normal(Unmarked(cdr), ctx.(pin := true))
    requires Level(car) == 0 && Level(cdr) <= 1 && !ctx.pdiag
    ensures Normal(Unmarked(Pipe(car, cdr, PLAIN)), ctx)
  {
    hide NormalTo;
    Unmarks(car);
    Unmarks(cdr);
  }

  /** What comes after a bar does not begin with an &. */
  lemma NotDiagnostics(ws: seq<Word>)
    requires Ordinary(ws) && Free(ws, 1)
    ensures ws != [] ==> At(ws[0], 0) != '&'
  {
    if ws != [] { assert OrdinaryWord(ws[0]); }
  }

  lemma {:induction false} Normal1b(ws: seq<Word>, close: bool, ctx: Context)
    requires Ordinary(ws) && Nested(ws, 0) && Free(ws, 2) && !ctx.pdiag
    ensures NormalForm(Syn1b(ws, close, ctx), ctx)
    decreases |ws|, 2
  {
    hide Nested, Free, Find, Normal, Unmarked, Ordinary, Syn2;
    var k := Find(ws, 0, AndAnd);
    if k == |ws| {
      Tighter(ws, AndAnd);
      Normal2(ws, close, ctx);
    } else {
      SplitFree(ws, AndAnd);
      OrdinaryParts(ws, k);
      var car, cdr := Syn2(ws[..k], false, ctx), Syn1b(ws[k + 1..], close, ctx);
      Normal2(ws[..k], false, ctx);
      Normal1b(ws[k + 1..], close, ctx);
      if car.Ok? && cdr.Ok? {
        NormalAnd(car.tree, cdr.tree, ctx);
      }
    }
  }

  lemma NormalAnd(car: Tree, cdr: Tree, ctx: Context)
    requires Normal(Unmarked(car), ctx) && Normal(Unmarked(cdr), ctx) && Level(car) <= 1 && Level(cdr) <= 2
    ensures Normal(Unmarked(Grammar.And(car, cdr)), ctx)
  {
    hide NormalTo;
    Unmarks(car);
    Unmarks(cdr);
  }

  lemma {:induction false} Normal1a(ws: seq<Word>, close: bool, ctx: Context)
    requires Ordinary(ws) && Nested(ws, 0) && Free(ws, 3) && !ctx.pdiag
    ensures NormalForm(Syn1a(ws, close, ctx), ctx)
    decreases |ws|, 3
  {
    hide Nested, Free, Find, Normal, Unmarked, Ordinary, Syn1b;
    var k := Find(ws, 0, OrOr);
    if k == |ws| {
      Tighter(ws, OrOr);
      Normal1b(ws, close, ctx);
    } else {
      SplitFree(ws, OrOr);
      OrdinaryParts(ws, k);
      var car, cdr := Syn1b(ws[..k], false, ctx), Syn1a(ws[k + 1..], close, ctx);
      Normal1b(ws[..k], false, ctx);
      Normal1a(ws[k + 1..], close, ctx);
      if car.Ok? && cdr.Ok? {
        NormalOr(car.tree, cdr.tree, ctx);
      }
    }
  }

  lemma NormalOr(car: Tree, cdr: Tree, ctx: Context)
    requires Normal(Unmarked(car), ctx) && Normal(Unmarked(cdr), ctx) && Level(car) <= 2 && Level(cdr) <= 3
    ensures Normal(Unmarked(Grammar.Or(car, cdr)), ctx)
  {
    hide NormalTo;
    Unmarks(car);
    Unmarks(cdr);
  }

  lemma {:induction false} Normal1(ws: seq<Word>, close: bool, ctx: Context)
    requires Ordinary(ws) && Nested(ws, 0) && !ctx.pdiag
    ensures NormalForm(Syn1(ws, close, ctx), ctx)
    decreases |ws|, 4
  {
    hide Nested, Free, Find, Normal, Unmarked, Ordinary, Syn1a;
    NothingLooser(ws);
    var k := Find(ws, 0, Semi);
    if k == |ws| {
      Tighter(ws, Semi);
      Normal1a(ws, close, ctx);
    } else {
      SplitFree(ws, Semi);
      OrdinaryParts(ws, k);
      var car, cdr := Syn1a(ws[..k], false, ctx), Syntax(ws[k + 1..], close, ctx);
      Normal1a(ws[..k], false, ctx);
      NormalSyntax(ws[k + 1..], close, ctx);
      if car.Ok? && cdr.Ok? {
        NormalList(car.tree, cdr.tree, ctx);
      }
    }
  }

  lemma NormalList(car: Tree, cdr: Tree, ctx: Context)
    requires Normal(Unmarked(car), ctx) && (!cdr.Nil? ==> Normal(Unmarked(cdr), ctx)) && Level(car) <= 3 && !car.Nil?
    ensures Normal(Unmarked(if cdr.Nil? then List(Nil, car) else List(car, cdr)), ctx)
  {
    hide NormalTo;
    Unmarks(car);
  }

  lemma {:induction false} Normal0(ws: seq<Word>, close: bool, ctx: Context)
    requires Ordinary(ws) && !ctx.pdiag
    ensures NormalForm(Syn0(ws, close, ctx), ctx)
    decreases |ws|, 5
  {
    NoLoneAmp(ws, 0);
    if FindAmp(ws, 0).NoAmp? {
      Normal1(ws, close, ctx);
    }
  }

  lemma {:induction false} SkipOrdinary(ws: seq<Word>)
    requires Ordinary(ws)
    ensures Ordinary(Skip(ws))
  {
    if ws != [] && Opening(ws[0]) {
      assert Ordinary(ws[1..]);
      SkipOrdinary(ws[1..]);
    }
  }

  /** What ordinary words parse to is normal. */
  lemma {:induction false} NormalSyntax(ws: seq<Word>, close: bool, ctx: Context)
    requires Ordinary(ws) && !ctx.pdiag
    ensures NormalForm(Syntax(ws, close, ctx), ctx)
    decreases |Skip(ws)|, 6
  {
    SkipOrdinary(ws);
    if Skip(ws) != [] {
      Normal0(Skip(ws), close, ctx);
    }
  }

  /** What was parsed, written out and parsed again, is the same without its empty commands, just when
      none of these is right inside parentheses; else it is an error. */
  lemma Reparse(ws: seq<Word>, close: bool, ctx: Context)
    requires Ordinary(ws) && !ctx.pdiag
    ensures var r := Syntax(ws, close, ctx);
      r.Ok? && !r.tree.Nil? ==>
        var again := Syntax(Words(r.tree), close, ctx);
        (again.Ok? <==> Readable(r.tree)) && (again.Ok? ==> Unmarked(again.tree) == Collapsed(Unmarked(r.tree)))
  {
    NormalSyntax(ws, close, ctx);
    var r := Syntax(ws, close, ctx);
    if r.Ok? && !r.tree.Nil? {
      Unmarks(r.tree);
      Back(Unmarked(r.tree), close, ctx);
    }
  }

  /** ( a ; ) is written as ( ; a ), which is an error. */
  lemma EmptyInside()
    ensures var t := Paren(List(Nil, Command(["a"], None, None, PLAIN)), None, None, PLAIN);
      && Syntax(["(", "a", ";", ")"], false, TOP) == Ok(t)
      && Words(t) == ["(", ";", "a", ")"] && Syntax(Words(t), false, TOP).Err?
  {
    hide Syntax, Normal, Even, Nested, Syn3, AmpsTaken;
    OuterSyn3();
    OneParen(["(", "a", ";", ")"]);
    NormalInside();
    EmptyInParens(Paren(List(Nil, Command(["a"], None, None, PLAIN)), None, None, PLAIN), TOP);
  }

  lemma EmptyInParens(t: Tree, ctx: Context)
    requires Normal(t, ctx) && t.Paren? && EmptyFirst(t.spr)
    ensures Syntax(Words(t), false, ctx).Err?
  {
    Back(t, false, ctx);
  }

  lemma InnerFlat()
    ensures Even(["a", ";"], 0, 0) && Nested(["(", "a", ";", ")"], 0)
    ensures AmpsTaken(["(", "a", ";", ")"]) && AmpsTaken(["a", ";"])
  {
    FlatEven(["a", ";"], 0);
  }

  lemma NormalInside()
    ensures Normal(Command(["a"], None, None, PLAIN), INSIDE)
    ensures Normal(Paren(List(Nil, Command(["a"], None, None, PLAIN)), None, None, PLAIN), TOP)
  {
    NotSpecial(["a"]);
  }

  lemma NotSpecial(ws: seq<Word>)
    requires ws != [] && ws[0] in ["(", "a"]
    ensures !Special(ws)
  {
  }

  lemma OuterSyn3()
    ensures Nested(["(", "a", ";", ")"], 0)
    ensures Syn3(["(", "a", ";", ")"], false, TOP) == Ok(Paren(List(Nil, Command(["a"], None, None, PLAIN)), None, None, PLAIN))
  {
    hide Fill, Special, Syn0, Even;
    var ws := ["(", "a", ";", ")"];
    InnerFlat();
    FillParen(["a", ";"], None, None, PLAIN, false, TOP);
    assert ws == ["("] + ["a", ";"] + [")"] + Redirections(None, None, PLAIN);
    NotSpecial(ws);
    InnerList();
  }

  lemma InnerList()
    ensures Syn0(["a", ";"], true, INSIDE) == Ok(List(Nil, Command(["a"], None, None, PLAIN)))
  {
    hide FindAmp, Syn1a, AmpsTaken;
    InnerFlat();
    NoAmpFound(["a", ";"], 0);
    OneWord();
    assert ["a", ";"][1..] == [";"];
    assert Find([";"], 0, Semi) == 0 && Find(["a", ";"], 0, Semi) == 1;
    assert ["a", ";"][..1] == ["a"] && ["a", ";"][2..] == [];
    assert Syntax([], true, INSIDE) == Ok(Nil);
  }

  lemma OneWord()
    ensures Nested(["a"], 0) && Syn1a(["a"], false, INSIDE) == Ok(Command(["a"], None, None, PLAIN))
  {
    hide Find, Syn3;
    var ws := ["a"];
    NormalInside();
    var a := Command(ws, None, None, PLAIN);
    WordsFind(a, INSIDE, OrOr);
    WordsFind(a, INSIDE, AndAnd);
    WordsFind(a, INSIDE, Bar);
    assert Words(a) == ws;
    WordOnly();
  }

  lemma WordOnly()
    ensures Nested(["a"], 0) && Syn3(["a"], false, INSIDE) == Ok(Command(["a"], None, None, PLAIN))
  {
    NotSpecial(["a"]);
    assert Fill(["a"], 0, Start(false), false, INSIDE) == Fill(["a"], 1, Keep(Start(false), "a"), false, INSIDE);
    assert [] + ["a"] == ["a"];
  }

  lemma OneParen(ws: seq<Word>)
    requires ws == ["(", "a", ";", ")"] && Nested(ws, 0)
    ensures Syntax(ws, false, TOP) == Syn3(ws, false, TOP)
  {
    hide Syn3, Find, FindAmp, Nested, AmpsTaken, Even;
    InnerFlat();
    assert ws == ["("] + ["a", ";"] + [")"] + [];
    FindParen(["a", ";"], [], Semi);
    FindParen(["a", ";"], [], OrOr);
    FindParen(["a", ";"], [], AndAnd);
    FindParen(["a", ";"], [], Bar);
    NoAmpFound(ws, 0);
    assert Syn2(ws, false, TOP) == Syn3(ws, false, TOP);
    assert Syn1b(ws, false, TOP) == Syn2(ws, false, TOP);
    assert Syn1a(ws, false, TOP) == Syn1b(ws, false, TOP);
    assert Syn1(ws, false, TOP) == Syn1a(ws, false, TOP);
    assert Syn0(ws, false, TOP) == Syn1(ws, false, TOP);
    assert Skip(ws) == ws;
  }
}
