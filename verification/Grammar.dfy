/** The shell's command grammar, over a list of words: separators of rising precedence are looked for
    outside parentheses, and what is between them is parsed one level down. A parse stops at its
    first error. */
module Grammar {
  import opened Basics

  type Word = string

  /** A character of a word; past its end, its terminator. */
  function At(w: Word, i: nat): char {
    if i < |w| then w[i] else '\0'
  }

  datatype Flags = Flags(append: bool, stderr: bool, overwrite: bool, read: bool, nofork: bool, amp: bool)

  const PLAIN := Flags(false, false, false, false, false, false)

  /** A command tree; Nil is the null pointer. */
  datatype Tree =
    | Nil
    | Command(av: seq<Word>, lef: Option<Word>, rit: Option<Word>, flg: Flags)
    | Paren(spr: Tree, lef: Option<Word>, rit: Option<Word>, flg: Flags)
    | Pipe(car: Tree, cdr: Tree, flg: Flags)
    | And(car: Tree, cdr: Tree)
    | Or(car: Tree, cdr: Tree)
    | List(car: Tree, cdr: Tree)

  datatype Error = TooManyRp | TooManyLp | BadPlp | BadPlps | OutRed | InRed | MisRed | RedPar | NullCom

  datatype Parsed = Ok(tree: Tree) | Err(error: Error)

  /** Where a command is: in parentheses, reading from a pipe, writing to one, that with diagnostics. */
  datatype Context = Context(here: bool, pin: bool, pout: bool, pdiag: bool)

  const TOP := Context(false, false, false, false)
  const INSIDE := Context(true, false, false, false)

  // ---- Parentheses ----

  function Bump(l: int, w: Word): int {
    if At(w, 0) == '(' then l + 1 else if At(w, 0) == ')' then l - 1 else l
  }

  /** From depth l, parentheses close down to depth 0 and no further. */
  predicate Nested(ws: seq<Word>, l: int) {
    if ws == [] then l == 0 else Bump(l, ws[0]) >= 0 && Nested(ws[1..], Bump(l, ws[0]))
  }

  // ---- Separators ----

  datatype Separator = Bar | AndAnd | OrOr | Semi

  predicate Separates(sep: Separator, w: Word) {
    match sep
    case Bar => At(w, 0) == '|'
    case AndAnd => At(w, 0) == '&' && At(w, 1) == '&'
    case OrOr => At(w, 0) == '|' && At(w, 1) == '|'
    case Semi => At(w, 0) == ';' || At(w, 0) == '\n'
  }

  /** Where the first separator at depth 0 is, coming in at depth l; the end, if there is none. */
  function Find(ws: seq<Word>, l: int, sep: Separator): (k: nat)
    ensures k <= |ws| && (k < |ws| ==> Separates(sep, ws[k]))
    ensures k < |ws| && Nested(ws, l) ==> Nested(ws[..k], l) && Nested(ws[k + 1..], 0)
  {
    if ws == [] || (l == 0 && Separates(sep, ws[0])) then 0
    else
      var k := Find(ws[1..], Bump(l, ws[0]), sep);
      assert k < |ws| - 1 ==> ws[..k + 1][1..] == ws[1..][..k] && ws[k + 2..] == ws[1..][k + 1..];
      1 + k
  }

  datatype Scan = AmpAt(k: nat) | NoAmp | Bad(error: Error)

  function Shift(n: nat, s: Scan): Scan {
    if s.AmpAt? then AmpAt(n + s.k) else s
  }

  /** Whether an & after this word belongs to it. */
  predicate TakesAmp(w: Word) {
    (At(w, 0) == '|' && At(w, 1) != '|') || At(w, 0) == '>'
  }

  /** The scan of syn0, for an & at depth 0. */
  function FindAmp(ws: seq<Word>, l: int): (s: Scan)
    requires l >= 0
    ensures s.AmpAt? ==> s.k < |ws| && At(ws[s.k], 0) == '&' && Nested(ws[..s.k], l)
    ensures s.NoAmp? ==> Nested(ws, l)
  {
    if ws == [] then (if l == 0 then NoAmp else Bad(TooManyLp))
    else
      var w := ws[0];
      if At(w, 0) == ')' && l == 0 then Bad(TooManyRp)
      else if TakesAmp(w) && |ws| > 1 && ws[1] == "&" then
        var s := FindAmp(ws[2..], l);
        assert s.AmpAt? ==> ws[..s.k + 2][1..][1..] == ws[2..][..s.k];
        assert ws[1..][1..] == ws[2..];
        Shift(2, s)
      else if At(w, 0) == '&' && l == 0 && At(w, 1) != '&' then AmpAt(0)
      else
        var s := FindAmp(ws[1..], Bump(l, w));
        assert s.AmpAt? ==> ws[..s.k + 1][1..] == ws[1..][..s.k];
        Shift(1, s)
  }

  // ---- Simple commands ----

  /** Whether a command is one of those whose parentheses are words of it. */
  predicate Special(ws: seq<Word>) {
    ws != [] &&
    if ws[0] == "else" then Special(ws[1..])
    else ws[0] in ["@", "exit", "foreach", "if", "set", "switch", "while"]
  }

  /** What syn3 has gathered: words, the parentheses (-1, none yet), the depth, redirections, flags. */
  datatype State = State(av: seq<Word>, lp: int, rp: int, l: int, lef: Option<Word>, rit: Option<Word>, flg: Flags)

  function Start(close: bool): State {
    State([], -1, -1, 0, None, None, PLAIN.(nofork := close))
  }

  datatype Filled = Full(s: State) | Failed(error: Error)

  datatype Redirected = Taken(next: nat, s: State) | Refused(error: Error)

  predicate RelPar(w: Word) {
    At(w, 0) in ['<', '>', '(', ')']
  }

  function OutTo(ws: seq<Word>, q: nat, s: State, ctx: Context): (r: Redirected)
    requires q < |ws|
    ensures r.Taken? ==> q + 1 < r.next <= |ws| && r.s.l == s.l && r.s.lp == s.lp && r.s.rp == s.rp
  {
    var bang := q + 1 < |ws| && ws[q + 1] == "!";
    var s1, q1 := if bang then s.(flg := s.flg.(overwrite := true)) else s, if bang then q + 1 else q;
    if q1 + 1 == |ws| || RelPar(ws[q1 + 1]) then Refused(MisRed)
    else if (ctx.pout && !ctx.pdiag) || s1.rit.Some? then Refused(OutRed)
    else Taken(q1 + 2, s1.(rit := Some(ws[q1 + 1])))
  }

  /** An output redirection at p: >, with & for diagnostics too, with ! to overwrite, and a file. */
  function RedirectOut(ws: seq<Word>, p: nat, s: State, ctx: Context): (r: Redirected)
    requires p < |ws|
    ensures r.Taken? ==> p + 1 < r.next <= |ws| && r.s.l == s.l && r.s.lp == s.lp && r.s.rp == s.rp
  {
    var s1 := if At(ws[p], 1) == '>' then s.(flg := s.flg.(append := true)) else s;
    if p + 1 < |ws| && ws[p + 1] == "&" then
      if ctx.pout || ctx.pdiag then Refused(OutRed)
      else OutTo(ws, p + 1, s1.(flg := s1.flg.(stderr := true)), ctx)
    else OutTo(ws, p, s1, ctx)
  }

  function RedirectIn(ws: seq<Word>, p: nat, s: State, ctx: Context): (r: Redirected)
    requires p < |ws|
    ensures r.Taken? ==> r.next == p + 2 <= |ws| && r.s.l == s.l && r.s.lp == s.lp && r.s.rp == s.rp
  {
    var s1 := if At(ws[p], 1) == '<' then s.(flg := s.flg.(read := true)) else s;
    if p + 1 == |ws| || RelPar(ws[p + 1]) then Refused(MisRed)
    else if ctx.here && s1.flg.read then Refused(RedPar)
    else if ctx.pin || s1.lef.Some? then Refused(InRed)
    else Taken(p + 2, s1.(lef := Some(ws[p + 1])))
  }

  /** A word kept among the words of the command. */
  function Keep(s: State, w: Word): State {
    s.(av := s.av + [w])
  }

  /** The second pass of syn3. */
  function Fill(ws: seq<Word>, p: nat, s: State, specp: bool, ctx: Context): (f: Filled)
    requires p <= |ws|
    decreases |ws| - p
  {
    if p == |ws| then Full(s)
    else
      var w := ws[p];
      var c := At(w, 0);
      if c == '(' && s.l == 0 && s.lp != -1 && !specp then Failed(BadPlp)
      else if c == '(' || c == ')' then Fill(ws, p + 1, Parenthesis(s, p, w, specp), specp, ctx)
      else if (c == '>' || c == '<') && s.l == 0 then
        var r := if c == '>' then RedirectOut(ws, p, s, ctx) else RedirectIn(ws, p, s, ctx);
        if r.Refused? then Failed(r.error) else Fill(ws, r.next, r.s, specp, ctx)
      else Fill(ws, p + 1, if s.l != 0 && !specp then s else Keep(s, w), specp, ctx)
  }

  function Parenthesis(s: State, p: nat, w: Word, specp: bool): State {
    var s1 :=
      if At(w, 0) == '(' then s.(lp := if s.l == 0 then p + 1 else s.lp, l := s.l + 1)
      else s.(l := s.l - 1, rp := if s.l - 1 == 0 then p else s.rp);
    if specp then Keep(s1, w) else s1
  }

  /** What the parentheses found so far look like at a word. */
  predicate ParensAt(s: State, p: nat) {
    && s.l >= 0 && -1 <= s.lp <= p && -1 <= s.rp < p
    && (s.lp == -1 ==> s.l == 0) && (s.lp != -1 ==> 0 < s.lp)
    && (s.l == 0 && s.lp != -1 ==> s.lp <= s.rp)
  }

  lemma {:induction false} NestedAt(ws: seq<Word>, l: int, p: nat)
    requires p < |ws|
    ensures Nested(ws[p..], l) <==> Bump(l, ws[p]) >= 0 && Nested(ws[p + 1..], Bump(l, ws[p]))
  {
    assert ws[p..][1..] == ws[p + 1..];
  }

  /** If the words are nested, both parentheses are found or neither. */
  lemma {:induction false} FillParens(ws: seq<Word>, p: nat, s: State, specp: bool, ctx: Context)
    requires p <= |ws| && ParensAt(s, p) && Nested(ws[p..], s.l)
    ensures var f := Fill(ws, p, s, specp, ctx); f.Full? ==> f.s.l == 0 && ParensAt(f.s, |ws|)
    decreases |ws| - p
  {
    hide RedirectOut, RedirectIn;
    if p < |ws| {
      var w := ws[p];
      var c := At(w, 0);
      NestedAt(ws, s.l, p);
      if c == '(' && s.l == 0 && s.lp != -1 && !specp {
      } else if c == '(' || c == ')' {
        FillParens(ws, p + 1, Parenthesis(s, p, w, specp), specp, ctx);
      } else if (c == '>' || c == '<') && s.l == 0 {
        var r := if c == '>' then RedirectOut(ws, p, s, ctx) else RedirectIn(ws, p, s, ctx);
        if r.Taken? {
          RedirectionNested(ws, p, s, ctx);
          FillParens(ws, r.next, r.s, specp, ctx);
        }
      } else {
        FillParens(ws, p + 1, if s.l != 0 && !specp then s else Keep(s, w), specp, ctx);
      }
    }
  }

  /** No word of a redirection is a parenthesis. */
  lemma RedirectionNested(ws: seq<Word>, p: nat, s: State, ctx: Context)
    requires p < |ws| && s.l == 0 && Nested(ws[p..], 0) && (At(ws[p], 0) == '>' || At(ws[p], 0) == '<')
    ensures var r := if At(ws[p], 0) == '>' then RedirectOut(ws, p, s, ctx) else RedirectIn(ws, p, s, ctx);
      r.Taken? ==> Nested(ws[r.next..], 0)
  {
    var r := if At(ws[p], 0) == '>' then RedirectOut(ws, p, s, ctx) else RedirectIn(ws, p, s, ctx);
    if r.Taken? {
      NestedAt(ws, 0, p);
      NestedAt(ws, 0, p + 1);
      if r.next > p + 2 { NestedAt(ws, 0, p + 2); }
      if r.next > p + 3 { NestedAt(ws, 0, p + 3); }
      assert r.next <= p + 4;
    }
  }

  // ---- The levels ----

  function Opening(w: Word): bool {
    At(w, 0) in [';', '&', '\n']
  }

  function Skip(ws: seq<Word>): (r: seq<Word>)
    ensures |r| <= |ws| && (r != [] ==> !Opening(r[0]))
    ensures ws != [] && Opening(ws[0]) ==> |r| < |ws|
  {
    if ws != [] && Opening(ws[0]) then Skip(ws[1..]) else ws
  }

  /** syntax: nothing, or syn0 from the first word that does not just separate. */
  function Syntax(ws: seq<Word>, close: bool, ctx: Context): (r: Parsed)
    decreases |Skip(ws)|, 6
  {
    if Skip(ws) == [] then Ok(Nil) else Syn0(Skip(ws), close, ctx)
  }

  function InBackground(t: Tree): Tree
    requires !t.Nil?
  {
    match t
    case Command(av, lef, rit, flg) => Command(av, lef, rit, flg.(amp := true))
    case Paren(spr, lef, rit, flg) => Paren(spr, lef, rit, flg.(amp := true))
    case Pipe(car, cdr, flg) => Pipe(car, cdr, flg.(amp := true))
    case _ => Paren(t, None, None, PLAIN.(amp := true))
  }

  /** syn0: syn1, or syn1 & syntax. */
  function Syn0(ws: seq<Word>, close: bool, ctx: Context): (r: Parsed)
    ensures r.Ok? ==> !r.tree.Nil?
    decreases |ws|, 5
  {
    match FindAmp(ws, 0)
    case Bad(e) => Err(e)
    case NoAmp => Syn1(ws, close, ctx)
    case AmpAt(k) =>
      var car := Syn1(ws[..k], false, ctx);
      if car.Err? then car
      else
        assert |Skip(ws[k..])| < |ws|;
        var cdr := Syntax(ws[k..], close, ctx);
        if cdr.Err? then cdr else Ok(List(InBackground(car.tree), cdr.tree))
  }

  /** syn1: syn1a, or syn1a ; syntax. */
  function Syn1(ws: seq<Word>, close: bool, ctx: Context): (r: Parsed)
    requires Nested(ws, 0)
    ensures r.Ok? ==> !r.tree.Nil?
    decreases |ws|, 4
  {
    var k := Find(ws, 0, Semi);
    if k == |ws| then Syn1a(ws, close, ctx)
    else
      var car := Syn1a(ws[..k], false, ctx);
      if car.Err? then car
      else
        var cdr := Syntax(ws[k + 1..], close, ctx);
        if cdr.Err? then cdr
        else Ok(if cdr.tree.Nil? then List(Nil, car.tree) else List(car.tree, cdr.tree))
  }

  /** syn1a: syn1b, or syn1b || syn1a. */
  function Syn1a(ws: seq<Word>, close: bool, ctx: Context): (r: Parsed)
    requires Nested(ws, 0)
    ensures r.Ok? ==> !r.tree.Nil? && Level(r.tree) <= 3
    decreases |ws|, 3
  {
    var k := Find(ws, 0, OrOr);
    if k == |ws| then Syn1b(ws, close, ctx)
    else
      var car := Syn1b(ws[..k], false, ctx);
      if car.Err? then car
      else
        var cdr := Syn1a(ws[k + 1..], close, ctx);
        if cdr.Err? then cdr else Ok(Or(car.tree, cdr.tree))
  }

  /** syn1b: syn2, or syn2 && syn1b. */
  function Syn1b(ws: seq<Word>, close: bool, ctx: Context): (r: Parsed)
    requires Nested(ws, 0)
    ensures r.Ok? ==> !r.tree.Nil? && Level(r.tree) <= 2
    decreases |ws|, 2
  {
    var k := Find(ws, 0, AndAnd);
    if k == |ws| then Syn2(ws, close, ctx)
    else
      var car := Syn2(ws[..k], false, ctx);
      if car.Err? then car
      else
        var cdr := Syn1b(ws[k + 1..], close, ctx);
        if cdr.Err? then cdr else Ok(And(car.tree, cdr.tree))
  }

  /** syn2: syn3, or syn3 | syn2, or syn3 |& syn2. */
  function Syn2(ws: seq<Word>, close: bool, ctx: Context): (r: Parsed)
    requires Nested(ws, 0)
    ensures r.Ok? ==> !r.tree.Nil? && Level(r.tree) <= 1
    decreases |ws|, 1
  {
    var k := Find(ws, 0, Bar);
    if k == |ws| then Syn3(ws, close, ctx)
    else
      var diag := k + 1 < |ws| && At(ws[k + 1], 0) == '&';
      var car := Syn3(ws[..k], false, ctx.(pout := true, pdiag := ctx.pdiag || diag));
      if car.Err? then car
      else
        assert diag ==> ws[k + 1..][1..] == ws[k + 2..];
        var cdr := Syn2(if diag then ws[k + 2..] else ws[k + 1..], close, ctx.(pin := true));
        if cdr.Err? then cdr else Ok(Pipe(car.tree, cdr.tree, PLAIN.(stderr := diag)))
  }

  /** syn3: words, or syn0 in parentheses, with redirections. */
  function Syn3(ws: seq<Word>, close: bool, ctx: Context): (r: Parsed)
    requires Nested(ws, 0)
    ensures r.Ok? ==> !r.tree.Nil? && Level(r.tree) == 0
    decreases |ws|, 0
  {
    var specp := Special(ws);
    var f := Fill(ws, 0, Start(close), specp, ctx);
    assert ws[0..] == ws;
    FillParens(ws, 0, Start(close), specp, ctx);
    if f.Failed? then Err(f.error)
    else if f.s.lp != -1 && !specp then
      if f.s.av != [] then Err(BadPlps)
      else
        var spr := Syn0(ws[f.s.lp..f.s.rp], true, INSIDE);
        if spr.Err? then spr else Ok(Paren(spr.tree, f.s.lef, f.s.rit, f.s.flg))
    else if f.s.av == [] then Err(NullCom)
    else Ok(Command(f.s.av, f.s.lef, f.s.rit, f.s.flg))
  }

  /** How loosely the top of a tree binds. */
  function Level(t: Tree): nat {
    match t
    case Nil => 0
    case Command(_, _, _, _) => 0
    case Paren(_, _, _, _) => 0
    case Pipe(_, _, _) => 1
    case And(_, _) => 2
    case Or(_, _) => 3
    case List(_, _) => 4
  }
}
