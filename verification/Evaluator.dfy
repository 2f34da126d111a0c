/** The shell's expression evaluator as it runs: one level of operators calling the next, all moving one
    cursor over the words. An error ends the evaluation. */
module Evaluator {
  import opened Numbers
  import opened Expressions

  /** What a run over the words from a place on has to come to: the value of their tree, and the place
      after it. */
  ghost predicate Evaluates(t: Parsed<IntExp>, skim: bool, env: Env, r: Result<int>, vp: nat) {
    if t.Bad? then r.Fail? else r == Eval(t.t, skim, env) && (r.Val? ==> vp == t.next)
  }

  ghost predicate Yields(t: Parsed<StrExp>, skim: bool, env: Env, r: Result<Word>, vp: nat) {
    if t.Bad? then r.Fail? else r == Words(t.t, skim, env) && (r.Val? ==> vp == t.next)
  }

  lemma SumOrDifference(w: Word)
    ensures IsAdd(w) ==> ArithOf(w).Plus? || ArithOf(w).Minus?
  {
  }

  // ---- One step of a level, and of the values at it ----

  lemma Parse3Is(ws: seq<Word>, files: nat -> bool, p: nat)
    requires p <= |ws|
    ensures var a := Parse3a(ws, files, p);
      if a.Tree? && a.next < |ws| && IsRel(ws[a.next]) then
        var equal := Is(ws, a.next + 1, "=");
        var b := Parse3(ws, files, if equal then a.next + 2 else a.next + 1);
        Parse3(ws, files, p) == if b.Tree? then Tree(Rel(RelOf(ws[a.next], equal), a.t, b.t), b.next) else Bad
      else Parse3(ws, files, p) == a
  {
  }

  lemma Parse3aIs(ws: seq<Word>, files: nat -> bool, p: nat)
    requires p <= |ws|
    ensures var a := Parse4(ws, files, p);
      if a.Tree? && a.next < |ws| && IsShift(ws[a.next]) then
        var b := Parse3a(ws, files, a.next + 1);
        Parse3a(ws, files, p) == if b.Tree? then Tree(Shift(At(ws[a.next], 0) == '<', a.t, b.t), b.next) else Bad
      else Parse3a(ws, files, p) == a
  {
  }

  lemma Parse4Is(ws: seq<Word>, files: nat -> bool, p: nat)
    requires p <= |ws|
    ensures var a := Parse5(ws, files, p);
      if a.Tree? && a.next < |ws| && IsAdd(ws[a.next]) then
        var b := Parse4(ws, files, a.next + 1);
        Parse4(ws, files, p) == if b.Tree? then Tree(Arith(ArithOf(ws[a.next]), a.t, b.t), b.next) else Bad
      else Parse4(ws, files, p) == a
  {
  }

  lemma Parse5Is(ws: seq<Word>, files: nat -> bool, p: nat)
    requires p <= |ws|
    ensures var a := Parse6(ws, files, p);
      if a.Tree? && a.next < |ws| && IsMul(ws[a.next]) then
        var b := Parse5(ws, files, a.next + 1);
        Parse5(ws, files, p) == if b.Tree? then Tree(Arith(ArithOf(ws[a.next]), a.t, b.t), b.next) else Bad
      else Parse5(ws, files, p) == a
  {
  }

  /** An operator fails as its operands do, left one first; and if neither does, works on their words. */
  lemma WordsOf(e: StrExp, skim: bool, env: Env)
    requires e.Rel? || e.Shift? || e.Arith?
    ensures var a, b := Words(e.l, skim, env), Words(e.r, skim, env);
      if a.Fail? then Words(e, skim, env) == a
      else if b.Fail? then Words(e, skim, env) == b
      else Words(e, skim, env) == Worked(e, a.v, b.v, skim, env)
  {
  }

  lemma Valued(t: Parsed<StrExp>, skim: bool, env: Env)
    ensures t.Tree? && (t.t.Rel? || t.t.Shift? || t.t.Arith?) ==>
      var a, b := Words(t.t.l, skim, env), Words(t.t.r, skim, env);
      if a.Fail? then Words(t.t, skim, env) == a
      else if b.Fail? then Words(t.t, skim, env) == b
      else Words(t.t, skim, env) == Worked(t.t, a.v, b.v, skim, env)
  {
    if t.Tree? && (t.t.Rel? || t.t.Shift? || t.t.Arith?) { WordsOf(t.t, skim, env); }
  }

  function Worked(e: StrExp, x: Word, y: Word, skim: bool, env: Env): Result<Word>
    requires e.Rel? || e.Shift? || e.Arith?
  {
    match e
    case Rel(rel, _, _) =>
      if skim then Val(Putn(RelCode(rel))) else Both(x, y, (m, n) => Val(Truth(Related(rel, m, n))))
    case Shift(left, _, _) => Both(x, y, (m, n) => Val(Shifted(left, m, n, env.shift)))
    case Arith(op, _, _) =>
      if skim then Val(Putn(0))
      else if op.Over? || op.Modulo? then Divided(op, x, y)
      else Both(x, y, (m, n) => Arithmetic(op, m, n))
  }

  class Evaluation {
    const ws: seq<Word>
    const env: Env
    var vp: nat

    constructor (ws: seq<Word>, env: Env)
      ensures this.ws == ws && this.env == env && vp == 0
    {
      this.ws, this.env, vp := ws, env, 0;
    }

    ghost predicate Ready()
      reads `vp
    {
      vp <= |ws|
    }

    /** Whether the next word is this one. */
    predicate Next(w: Word)
      reads `vp
    {
      Is(ws, vp, w)
    }

    /** exp0: exp1, or exp1 || exp0. */
    method Exp0(ignore: bool) returns (r: Result<int>)
      requires Ready()
      modifies `vp
      ensures Ready()
      ensures Evaluates(Parse0(ws, env.files, old(vp)), ignore, env, r, vp)
      ensures ignore && r.Fail? ==> !Divides(r.error)
      decreases |ws| - vp, 10
    {
      hide Putn, Egetn, Arithmetic, Shifted, Bitwise;
      var p1 := Exp1(ignore);
      if p1.Fail? || !Next("||") { return p1; }
      vp := vp + 1;
      var p2 := Exp0(ignore || p1.v != 0);
      r := if p2.Fail? then p2 else Val(Truth(p1.v != 0 || p2.v != 0));
    }

    /** exp1: exp2, or exp2 && exp1. */
    method Exp1(ignore: bool) returns (r: Result<int>)
      requires Ready()
      modifies `vp
      ensures Ready()
      ensures Evaluates(Parse1(ws, env.files, old(vp)), ignore, env, r, vp)
      ensures ignore && r.Fail? ==> !Divides(r.error)
      decreases |ws| - vp, 9
    {
      hide Putn, Egetn, Arithmetic, Shifted, Bitwise;
      var p1 := Exp2(ignore);
      if p1.Fail? || !Next("&&") { return p1; }
      vp := vp + 1;
      var p2 := Exp1(ignore || p1.v == 0);
      r := if p2.Fail? then p2 else Val(Truth(p1.v != 0 && p2.v != 0));
    }

    /** exp2: exp2a, or exp2a | exp2. */
    method Exp2(ignore: bool) returns (r: Result<int>)
      requires Ready()
      modifies `vp
      ensures Ready()
      ensures Evaluates(ParseBits(ws, env.files, old(vp), BitOr), ignore, env, r, vp)
      ensures ignore && r.Fail? ==> !Divides(r.error)
      decreases |ws| - vp, 8
    {
      hide Putn, Egetn, Arithmetic, Shifted, Bitwise;
      var p1 := Exp2a(ignore);
      if p1.Fail? || !Next("|") { return p1; }
      vp := vp + 1;
      var p2 := Exp2(ignore);
      r := if p2.Fail? then p2 else Val(Bitwise(BitOr, p1.v, p2.v));
    }

    /** exp2a: exp2b, or exp2b ^ exp2a. */
    method Exp2a(ignore: bool) returns (r: Result<int>)
      requires Ready()
      modifies `vp
      ensures Ready()
      ensures Evaluates(ParseBits(ws, env.files, old(vp), BitXor), ignore, env, r, vp)
      ensures ignore && r.Fail? ==> !Divides(r.error)
      decreases |ws| - vp, 7
    {
      hide Putn, Egetn, Arithmetic, Shifted, Bitwise;
      var p1 := Exp2b(ignore);
      if p1.Fail? || !Next("^") { return p1; }
      vp := vp + 1;
      var p2 := Exp2a(ignore);
      r := if p2.Fail? then p2 else Val(Bitwise(BitXor, p1.v, p2.v));
    }

    /** exp2b: exp2c, or exp2c & exp2b. */
    method Exp2b(ignore: bool) returns (r: Result<int>)
      requires Ready()
      modifies `vp
      ensures Ready()
      ensures Evaluates(ParseBits(ws, env.files, old(vp), BitAnd), ignore, env, r, vp)
      ensures ignore && r.Fail? ==> !Divides(r.error)
      decreases |ws| - vp, 6
    {
      hide Putn, Egetn, Arithmetic, Shifted, Bitwise;
      var p1 := Exp2c(ignore);
      if p1.Fail? || !Next("&") { return p1; }
      vp := vp + 1;
      var p2 := Exp2b(ignore);
      r := if p2.Fail? then p2 else Val(Bitwise(BitAnd, p1.v, p2.v));
    }

    /** exp2c: words compared, or one taken as a number. */
    method Exp2c(ignore: bool) returns (r: Result<int>)
      requires Ready()
      modifies `vp
      ensures Ready()
      ensures Evaluates(Parse2c(ws, env.files, old(vp)), ignore, env, r, vp)
      ensures ignore && r.Fail? ==> !Divides(r.error)
      decreases |ws| - vp, 5
    {
      hide Putn, Egetn, Arithmetic, Shifted, Bitwise;
      var p1 := Exp3(ignore);
      if p1.Fail? { return Fail(p1.error); }
      if vp < |ws| && IsEq(ws[vp]) {
        var i := EqOf(ws[vp]);
        vp := vp + 1;
        var p2 := Exp3(ignore);
        if p2.Fail? { return Fail(p2.error); }
        r := Val(if ignore then EqCode(i) else Truth(Alike(i, p1.v, p2.v, env)));
      } else {
        r := Int(p1.v);
      }
    }

    /** exp3: numbers compared; an equals sign after the operator belongs to it. */
    method Exp3(ignore: bool) returns (r: Result<Word>)
      requires Ready()
      modifies `vp
      ensures Ready()
      ensures Yields(Parse3(ws, env.files, old(vp)), ignore, env, r, vp)
      ensures ignore && r.Fail? ==> !Divides(r.error)
      decreases |ws| - vp, 4
    {
      hide Putn, Egetn, Arithmetic, Shifted, Bitwise, Words, Parse3, Parse3a;
      Parse3Is(ws, env.files, vp);
      Valued(Parse3(ws, env.files, vp), ignore, env);
      var p1 := Exp3a(ignore);
      if p1.Fail? || vp == |ws| || !IsRel(ws[vp]) { return p1; }
      var op := ws[vp];
      vp := vp + 1;
      var equal := Next("=");
      if equal {
        vp := vp + 1;
      }
      var p2 := Exp3(ignore);
      if p2.Fail? { return p2; }
      var rel := RelOf(op, equal);
      r := if ignore then Val(Putn(RelCode(rel))) else Both(p1.v, p2.v, (x, y) => Val(Truth(Related(rel, x, y))));
    }

    /** exp3a: shifts, which are worked out even where the value is not wanted. */
    method Exp3a(ignore: bool) returns (r: Result<Word>)
      requires Ready()
      modifies `vp
      ensures Ready()
      ensures Yields(Parse3a(ws, env.files, old(vp)), ignore, env, r, vp)
      ensures ignore && r.Fail? ==> !Divides(r.error)
      decreases |ws| - vp, 3
    {
      hide Putn, Egetn, Arithmetic, Shifted, Bitwise, Words, Parse3a, Parse4;
      Parse3aIs(ws, env.files, vp);
      Valued(Parse3a(ws, env.files, vp), ignore, env);
      var p1 := Exp4(ignore);
      if p1.Fail? || vp == |ws| || !IsShift(ws[vp]) { return p1; }
      var left := At(ws[vp], 0) == '<';
      vp := vp + 1;
      var p2 := Exp3a(ignore);
      if p2.Fail? { return p2; }
      r := Both(p1.v, p2.v, (x, y) => Val(Shifted(left, x, y, env.shift)));
    }

    /** exp4: sums and differences, grouped from the right. */
    method Exp4(ignore: bool) returns (r: Result<Word>)
      requires Ready()
      modifies `vp
      ensures Ready()
      ensures Yields(Parse4(ws, env.files, old(vp)), ignore, env, r, vp)
      ensures ignore && r.Fail? ==> !Divides(r.error)
      decreases |ws| - vp, 2
    {
      hide ArithOf, IsAdd, Putn, Egetn, Arithmetic, Shifted, Bitwise, Words, Parse4, Parse5;
      Parse4Is(ws, env.files, vp);
      Valued(Parse4(ws, env.files, vp), ignore, env);
      var p1 := Exp5(ignore);
      if p1.Fail? || vp == |ws| || !IsAdd(ws[vp]) { return p1; }
      var op := ArithOf(ws[vp]);
      SumOrDifference(ws[vp]);
      vp := vp + 1;
      var p2 := Exp4(ignore);
      if p2.Fail? { return p2; }
      r := if ignore then Val(Putn(0)) else Both(p1.v, p2.v, (x, y) => Arithmetic(op, x, y));
    }

    /** exp5: products, quotients and remainders; no division where the value is not wanted. */
    method Exp5(ignore: bool) returns (r: Result<Word>)
      requires Ready()
      modifies `vp
      ensures Ready()
      ensures Yields(Parse5(ws, env.files, old(vp)), ignore, env, r, vp)
      ensures ignore && r.Fail? ==> !Divides(r.error)
      decreases |ws| - vp, 1
    {
      hide ArithOf, IsMul, Putn, Egetn, Arithmetic, Shifted, Bitwise, Words, Parse5, Parse6;
      Parse5Is(ws, env.files, vp);
      Valued(Parse5(ws, env.files, vp), ignore, env);
      var p1 := Exp6(ignore);
      if p1.Fail? || vp == |ws| || !IsMul(ws[vp]) { return p1; }
      var op := ArithOf(ws[vp]);
      vp := vp + 1;
      var p2 := Exp5(ignore);
      if p2.Fail? { return p2; }
      if ignore {
        r := Val(Putn(0));
      } else if op.Over? || op.Modulo? {
        r := Divided(op, p1.v, p2.v);
      } else {
        r := Both(p1.v, p2.v, (x, y) => Arithmetic(op, x, y));
      }
    }

    /** The branches of exp6 for ! and ~. */
    method Negate(ignore: bool) returns (r: Result<Word>)
      requires Ready() && (Next("!") || Next("~"))
      modifies `vp
      ensures Ready()
      ensures Yields(Parse6(ws, env.files, old(vp)), ignore, env, r, vp)
      ensures ignore && r.Fail? ==> !Divides(r.error)
      decreases |ws| - vp, 0, 0
    {
      hide Putn, Egetn, Arithmetic, Shifted, Bitwise, IsAny, IsInquiry;
      var not := Next("!");
      vp := vp + 1;
      var cp := Exp6(ignore);
      if cp.Fail? { return cp; }
      var i := Int(cp.v);
      if i.Fail? { return Fail(i.error); }
      r := Val(Putn(if not then Truth(i.v == 0) else -i.v - 1));
    }

    /** The branch of exp6 for parentheses. */
    method Parenthesized(ignore: bool) returns (r: Result<Word>)
      requires Ready() && Next("(")
      modifies `vp
      ensures Ready()
      ensures Yields(Parse6(ws, env.files, old(vp)), ignore, env, r, vp)
      ensures ignore && r.Fail? ==> !Divides(r.error)
      decreases |ws| - vp, 0, 0
    {
      hide Putn, Egetn, Arithmetic, Shifted, Bitwise, IsAny, IsInquiry;
      vp := vp + 1;
      var ccode := Exp0(ignore);
      if ccode.Fail? { return Fail(ccode.error); }
      if vp == |ws| || At(ws[vp], 0) != ')' { return Fail(Expression); }
      vp := vp + 1;
      r := Val(Putn(ccode.v));
    }

    /** The branch of exp6 for a command in braces, which is not run where its value is not wanted. */
    method Run(ignore: bool) returns (r: Result<Word>)
      requires Ready() && Next("{")
      modifies `vp
      ensures Ready()
      ensures Yields(Parse6(ws, env.files, old(vp)), ignore, env, r, vp)
      ensures r.Fail? ==> !Divides(r.error)
    {
      hide Putn, Egetn, IsAny, IsInquiry;
      ghost var p := vp;
      vp := vp + 1;
      var v := vp;
      while true
        invariant v <= vp <= |ws| && Brace(ws, v) == Brace(ws, vp)
        decreases |ws| - vp
      {
        if vp == |ws| { return Fail(Expression); }
        vp := vp + 1;
        if ws[vp - 1] == "}" { break; }
      }
      r := Val(if ignore then "" else Putn(Truth(env.run(ws[v..vp - 1], v - 1))));
    }

    /** The branch of exp6 for a file inquiry: one letter, and the name of a file after it. */
    method Inquire(ignore: bool) returns (r: Result<Word>)
      requires Ready() && vp < |ws| && IsInquiry(ws[vp]) && !IsAny(ws[vp]) && ws[vp] !in ["!", "~", "(", "{"]
      modifies `vp
      ensures Ready()
      ensures Yields(Parse6(ws, env.files, old(vp)), ignore, env, r, vp)
      ensures r.Fail? ==> !Divides(r.error)
    {
      hide Putn, Egetn, IsAny;
      var cp := ws[vp];
      vp := vp + 1;
      if |cp| > 2 || vp == |ws| || (IsAny(ws[vp]) && !env.files(vp)) {
        return Fail(Expression);
      }
      vp := vp + 1;
      r := Val(if ignore then "" else Putn(Truth(env.inquire(cp[1], ws[vp - 1], vp - 2))));
    }

    /** exp6: an operand, with ! and ~ before it; nothing, if an operator comes where it should be. */
    method Exp6(ignore: bool) returns (r: Result<Word>)
      requires Ready()
      modifies `vp
      ensures Ready()
      ensures Yields(Parse6(ws, env.files, old(vp)), ignore, env, r, vp)
      ensures ignore && r.Fail? ==> !Divides(r.error)
      decreases |ws| - vp, 0
    {
      hide Putn, Egetn, Arithmetic, Shifted, Bitwise, IsAny, IsInquiry;
      if vp == |ws| {
        return Fail(Expression);
      }
      if Next("!") || Next("~") {
        r := Negate(ignore);
      } else if Next("(") {
        r := Parenthesized(ignore);
      } else if Next("{") {
        r := Run(ignore);
      } else if IsAny(ws[vp]) {
        r := Val("");
      } else if IsInquiry(ws[vp]) {
        r := Inquire(ignore);
      } else {
        r := Val(ws[vp]);
        vp := vp + 1;
      }
    }
  }

  /** exp, of a list of words: what the tree of its words means, unless a side of || or && whose value
      does not matter holds a word that ought to be a number; then, the error of that. */
  method Exp(ws: seq<Word>, env: Env) returns (r: Result<int>, used: nat)
    ensures var t := Parse0(ws, env.files, 0);
      if t.Bad? then r.Fail? else r == Outcome(t.t, env) && (r.Val? ==> used == t.next)
  {
    var e := new Evaluation(ws, env);
    r := e.Exp0(false);
    used := e.vp;
    var t := Parse0(ws, env.files, 0);
    if t.Tree? { EvalIs(t.t, env); }
  }

  /** Skimming instead of evaluating: nothing is divided, and if evaluating comes to a value, skimming
      does too, and has used the same words. */
  method Skim(ws: seq<Word>, env: Env) returns (value: Result<int>, used: nat, skimmed: Result<int>, skipped: nat)
    ensures skimmed.Fail? ==> !Divides(skimmed.error)
    ensures value.Val? ==> skimmed.Val? && skipped == used
    ensures var t := Parse0(ws, env.files, 0);
      t.Tree? ==> (skimmed.Val? <==> SkimError(t.t).None?) && (skimmed.Val? ==> skipped == t.next)
  {
    var e := new Evaluation(ws, env);
    value := e.Exp0(false);
    used := e.vp;
    var s := new Evaluation(ws, env);
    skimmed := s.Exp0(true);
    skipped := s.vp;
    var t := Parse0(ws, env.files, 0);
    if value.Val? { EvaluatedSkims(t.t, env); }
    if t.Tree? { SkimFails(t.t, env); }
  }
}
