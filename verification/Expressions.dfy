/** The shell's arithmetic and logical expressions: the trees their words make, right-nested, and the
    values of those, evaluated or only skimmed over. */
module Expressions {
  import opened Basics
  import opened Numbers

  type Word = string

  datatype EqOp = EqEq | NotEq | Match | NotMatch

  /** Expressions that have a number, and those that have a word. */
  datatype IntExp =
    | Or(l: IntExp, r: IntExp)
    | And(l: IntExp, r: IntExp)
    | Bit(op: BitOp, l: IntExp, r: IntExp)
    | Same(eq: EqOp, a: StrExp, b: StrExp)
    | NumberOf(a: StrExp)

  datatype StrExp =
    | Rel(rel: RelOp, l: StrExp, r: StrExp)
    | Shift(left: bool, l: StrExp, r: StrExp)
    | Arith(op: ArithOp, l: StrExp, r: StrExp)
    | Not(e: StrExp)
    | Complement(e: StrExp)
    | Group(g: IntExp)
    | Empty
    | Atom(w: Word)
    | Command(ws: seq<Word>, at: nat)                   // { words }
    | Inquiry(letter: char, name: Word, at: nat)        // -letter name

  /** What the machine makes of shifts by counts out of range, which words a pattern matches, which
      words name files, and whether the command or the inquiry at a place succeeds. Each of these is
      run at most once, so what it makes of the others is covered by its place. */
  datatype Env = Env(shift: (int, int) -> int, gmatch: (Word, Word) -> bool, files: nat -> bool,
                     run: (seq<Word>, nat) -> bool, inquire: (char, Word, nat) -> bool)

  // ---- isa ----

  function At(w: Word, i: nat): char {
    if i < |w| then w[i] else '\0'
  }

  predicate IsAdd(w: Word) {
    w == "+" || w == "-"
  }

  predicate IsMul(w: Word) {
    w == "*" || w == "/" || w == "%"
  }

  predicate IsEq(w: Word) {
    w == "==" || w == "!=" || w == "=~" || w == "!~"
  }

  predicate IsRel(w: Word) {
    At(w, 0) == '<' || At(w, 0) == '>'
  }

  predicate IsShift(w: Word) {
    (At(w, 0) == '<' || At(w, 0) == '>') && At(w, 0) == At(w, 1)
  }

  predicate IsRest(w: Word) {
    w in ["(", ")", "!", "~", "^", "\"", "|&", "<<", ">>"]
  }

  predicate IsAny(w: Word) {
    IsAdd(w) || IsMul(w) || IsEq(w) || IsRel(w) || IsRest(w)
  }

  function EqOf(w: Word): EqOp {
    if w == "==" then EqEq else if w == "!=" then NotEq else if w == "=~" then Match else NotMatch
  }

  function ArithOf(w: Word): ArithOp {
    if w == "+" then Plus else if w == "-" then Minus else if w == "*" then Times else if w == "/" then Over else Modulo
  }

  function RelOf(w: Word, orEqual: bool): RelOp {
    if At(w, 0) == '>' then (if orEqual then GtrEq else Gtr) else if orEqual then LssEq else Lss
  }

  // ---- Parsing: from a place in the words, a tree and the place after it ----

  datatype Parsed<T> = Tree(t: T, next: nat) | Bad

  predicate Is(ws: seq<Word>, p: nat, w: Word) {
    p < |ws| && ws[p] == w
  }

  function Parse0(ws: seq<Word>, files: nat -> bool, p: nat): (r: Parsed<IntExp>)
    requires p <= |ws|
    ensures r.Tree? ==> p <= r.next <= |ws|
    decreases |ws| - p, 10
  {
    var a := Parse1(ws, files, p);
    if a.Tree? && Is(ws, a.next, "||") then
      var b := Parse0(ws, files, a.next + 1);
      if b.Tree? then Tree(Or(a.t, b.t), b.next) else Bad
    else a
  }

  function Parse1(ws: seq<Word>, files: nat -> bool, p: nat): (r: Parsed<IntExp>)
    requires p <= |ws|
    ensures r.Tree? ==> p <= r.next <= |ws|
    decreases |ws| - p, 9
  {
    var a := ParseBits(ws, files, p, BitOr);
    if a.Tree? && Is(ws, a.next, "&&") then
      var b := Parse1(ws, files, a.next + 1);
      if b.Tree? then Tree(And(a.t, b.t), b.next) else Bad
    else a
  }

  function BitWord(op: BitOp): Word {
    match op
    case BitOr => "|"
    case BitXor => "^"
    case BitAnd => "&"
  }

  function BitRank(op: BitOp): nat {
    match op
    case BitOr => 3
    case BitXor => 2
    case BitAnd => 1
  }

  /** The levels of the bitwise operators, one under the other. */
  function ParseBits(ws: seq<Word>, files: nat -> bool, p: nat, op: BitOp): (r: Parsed<IntExp>)
    requires p <= |ws|
    ensures r.Tree? ==> p <= r.next <= |ws|
    decreases |ws| - p, 5 + BitRank(op)
  {
    var a := if op.BitOr? then ParseBits(ws, files, p, BitXor) else if op.BitXor? then ParseBits(ws, files, p, BitAnd) else Parse2c(ws, files, p);
    if a.Tree? && Is(ws, a.next, BitWord(op)) then
      var b := ParseBits(ws, files, a.next + 1, op);
      if b.Tree? then Tree(Bit(op, a.t, b.t), b.next) else Bad
    else a
  }

  function Parse2c(ws: seq<Word>, files: nat -> bool, p: nat): (r: Parsed<IntExp>)
    requires p <= |ws|
    ensures r.Tree? ==> p <= r.next <= |ws|
    decreases |ws| - p, 5
  {
    var a := Parse3(ws, files, p);
    if a.Bad? then Bad
    else if a.next < |ws| && IsEq(ws[a.next]) then
      var b := Parse3(ws, files, a.next + 1);
      if b.Tree? then Tree(Same(EqOf(ws[a.next]), a.t, b.t), b.next) else Bad
    else Tree(NumberOf(a.t), a.next)
  }

  function Parse3(ws: seq<Word>, files: nat -> bool, p: nat): (r: Parsed<StrExp>)
    requires p <= |ws|
    ensures r.Tree? ==> p <= r.next <= |ws|
    decreases |ws| - p, 4
  {
    var a := Parse3a(ws, files, p);
    if a.Tree? && a.next < |ws| && IsRel(ws[a.next]) then
      var equal := Is(ws, a.next + 1, "=");
      var b := Parse3(ws, files, if equal then a.next + 2 else a.next + 1);
      if b.Tree? then Tree(Rel(RelOf(ws[a.next], equal), a.t, b.t), b.next) else Bad
    else a
  }

  function Parse3a(ws: seq<Word>, files: nat -> bool, p: nat): (r: Parsed<StrExp>)
    requires p <= |ws|
    ensures r.Tree? ==> p <= r.next <= |ws|
    decreases |ws| - p, 3
  {
    var a := Parse4(ws, files, p);
    if a.Tree? && a.next < |ws| && IsShift(ws[a.next]) then
      var b := Parse3a(ws, files, a.next + 1);
      if b.Tree? then Tree(Shift(At(ws[a.next], 0) == '<', a.t, b.t), b.next) else Bad
    else a
  }

  function Parse4(ws: seq<Word>, files: nat -> bool, p: nat): (r: Parsed<StrExp>)
    requires p <= |ws|
    ensures r.Tree? ==> p <= r.next <= |ws|
    decreases |ws| - p, 2
  {
    var a := Parse5(ws, files, p);
    if a.Tree? && a.next < |ws| && IsAdd(ws[a.next]) then
      var b := Parse4(ws, files, a.next + 1);
      if b.Tree? then Tree(Arith(ArithOf(ws[a.next]), a.t, b.t), b.next) else Bad
    else a
  }

  function Parse5(ws: seq<Word>, files: nat -> bool, p: nat): (r: Parsed<StrExp>)
    requires p <= |ws|
    ensures r.Tree? ==> p <= r.next <= |ws|
    decreases |ws| - p, 1
  {
    var a := Parse6(ws, files, p);
    if a.Tree? && a.next < |ws| && IsMul(ws[a.next]) then
      var b := Parse5(ws, files, a.next + 1);
      if b.Tree? then Tree(Arith(ArithOf(ws[a.next]), a.t, b.t), b.next) else Bad
    else a
  }

  /** The next closing brace. */
  function Brace(ws: seq<Word>, p: nat): (e: nat)
    requires p <= |ws|
    ensures p <= e <= |ws| && (e < |ws| ==> ws[e] == "}") && forall i :: p <= i < e ==> ws[i] != "}"
    decreases |ws| - p
  {
    if p == |ws| || ws[p] == "}" then p else Brace(ws, p + 1)
  }

  predicate IsInquiry(w: Word) {
    At(w, 0) == '-' && At(w, 1) in "erwxfdzopls"
  }

  /** An operand; nothing, where there is an operator, so that a sign can come first. */
  function Parse6(ws: seq<Word>, files: nat -> bool, p: nat): (r: Parsed<StrExp>)
    requires p <= |ws|
    ensures r.Tree? ==> p <= r.next <= |ws|
    decreases |ws| - p, 0
  {
    if p == |ws| then Bad
    else if ws[p] == "!" || ws[p] == "~" then
      var a := Parse6(ws, files, p + 1);
      if a.Tree? then Tree(if ws[p] == "!" then Not(a.t) else Complement(a.t), a.next) else Bad
    else if ws[p] == "(" then
      var a := Parse0(ws, files, p + 1);
      if a.Tree? && a.next < |ws| && At(ws[a.next], 0) == ')' then Tree(Group(a.t), a.next + 1) else Bad
    else if ws[p] == "{" then
      var e := Brace(ws, p + 1);
      if e < |ws| then Tree(Command(ws[p + 1..e], p), e + 1) else Bad
    else if IsAny(ws[p]) then Tree(Empty, p)
    else if IsInquiry(ws[p]) then
      if |ws[p]| > 2 || p + 1 == |ws| || (IsAny(ws[p + 1]) && !files(p + 1)) then Bad
      else Tree(Inquiry(ws[p][1], ws[p + 1], p), p + 2)
    else Tree(Atom(ws[p]), p + 1)
  }

  // ---- Values, as they are worked out: with everything evaluated, or skimmed ----

  function Eval(e: IntExp, skim: bool, env: Env): (r: Result<int>)
    ensures r.Val? ==> IsInt(r.v)
    decreases e
  {
    match e
    case Or(l, r) =>
      var a := Eval(l, skim, env);
      if a.Fail? then a
      else
        var b := Eval(r, skim || a.v != 0, env);
        if b.Fail? then b else Val(Truth(a.v != 0 || b.v != 0))
    case And(l, r) =>
      var a := Eval(l, skim, env);
      if a.Fail? then a
      else
        var b := Eval(r, skim || a.v == 0, env);
        if b.Fail? then b else Val(Truth(a.v != 0 && b.v != 0))
    case Bit(op, l, r) =>
      var a := Eval(l, skim, env);
      if a.Fail? then a
      else
        var b := Eval(r, skim, env);
        if b.Fail? then b else Val(Bitwise(op, a.v, b.v))
    case Same(eq, l, r) =>
      var a := Words(l, skim, env);
      if a.Fail? then Fail(a.error)
      else
        var b := Words(r, skim, env);
        if b.Fail? then Fail(b.error)
        else Val(if skim then EqCode(eq) else Truth(Alike(eq, a.v, b.v, env)))
    case NumberOf(s) =>
      var a := Words(s, skim, env);
      if a.Fail? then Fail(a.error) else Int(a.v)
  }

  /** egetn, whose result is a 32-bit number. */
  function Int(s: Word): (r: Result<int>)
    ensures r == Egetn(s) && (if r.Val? then IsInt(r.v) else !Divides(r.error))
  {
    Egetn(s)
  }

  function EqCode(eq: EqOp): (r: int)
    ensures IsInt(r) && r != 0
  {
    match eq
    case EqEq => 1
    case NotEq => 6
    case Match => 7
    case NotMatch => 8
  }

  function RelCode(rel: RelOp): (r: int)
    ensures IsInt(r) && r != 0
  {
    match rel
    case Gtr => 2
    case GtrEq => 3
    case Lss => 4
    case LssEq => 5
  }

  predicate Alike(eq: EqOp, a: Word, b: Word, env: Env) {
    match eq
    case EqEq => a == b
    case NotEq => a != b
    case Match => env.gmatch(a, b)
    case NotMatch => !env.gmatch(a, b)
  }

  function Words(e: StrExp, skim: bool, env: Env): (r: Result<Word>)
    decreases e
  {
    match e
    case Rel(rel, l, r) =>
      var a := Words(l, skim, env);
      if a.Fail? then a
      else
        var b := Words(r, skim, env);
        if b.Fail? then b
        else if skim then Val(Putn(RelCode(rel)))
        else Both(a.v, b.v, (x, y) => Val(Truth(Related(rel, x, y))))
    case Shift(left, l, r) =>
      var a := Words(l, skim, env);
      if a.Fail? then a
      else
        var b := Words(r, skim, env);
        if b.Fail? then b else Both(a.v, b.v, (x, y) => Val(Shifted(left, x, y, env.shift)))
    case Arith(op, l, r) =>
      var a := Words(l, skim, env);
      if a.Fail? then a
      else
        var b := Words(r, skim, env);
        if b.Fail? then b
        else if skim then Val(Putn(0))
        else if op.Over? || op.Modulo? then Divided(op, a.v, b.v)
        else Both(a.v, b.v, (x, y) => Arithmetic(op, x, y))
    case Not(s) =>
      var a := Words(s, skim, env);
      if a.Fail? then a
      else
        var i := Int(a.v);
        if i.Fail? then Fail(i.error) else Val(Putn(Truth(i.v == 0)))
    case Complement(s) =>
      var a := Words(s, skim, env);
      if a.Fail? then a
      else
        var i := Int(a.v);
        if i.Fail? then Fail(i.error) else Val(Putn(-i.v - 1))
    case Group(g) =>
      var a := Eval(g, skim, env);
      if a.Fail? then Fail(a.error) else Val(Putn(a.v))
    case Empty => Val("")
    case Atom(w) => Val(w)
    case Command(ws, at) => Val(if skim then "" else Putn(Truth(env.run(ws, at))))
    case Inquiry(letter, name, at) => Val(if skim then "" else Putn(Truth(env.inquire(letter, name, at))))
  }

  /** An operator on the numbers of two words. */
  function Both(a: Word, b: Word, f: (int, int) -> Result<int>): Result<Word> {
    var x := Int(a);
    if x.Fail? then Fail(x.error)
    else
      var y := Int(b);
      if y.Fail? then Fail(y.error)
      else
        var r := f(x.v, y.v);
        if r.Fail? then Fail(r.error) else Val(Putn(r.v))
  }

  /** Division looks at the divisor first. */
  function Divided(op: ArithOp, a: Word, b: Word): Result<Word>
    requires op.Over? || op.Modulo?
  {
    var y := Int(b);
    if y.Fail? then Fail(y.error)
    else if y.v == 0 then Fail(if op.Over? then DivByZero else ModByZero)
    else
      var x := Int(a);
      if x.Fail? then Fail(x.error) else Val(Putn(Arithmetic(op, x.v, y.v).v))
  }

  // ---- Skimming ----

  predicate Divides(error: Error) {
    error.DivByZero? || error.ModByZero?
  }

  /** The first of two errors, if there is one. */
  function First(a: Option<Error>, b: Option<Error>): Option<Error> {
    if a.Some? then a else b
  }

  /** The error of a word that is taken for a number as it stands. */
  function OperandError(e: StrExp): Option<Error> {
    if e.Atom? && Egetn(e.w).Fail? then Some(Egetn(e.w).error) else None
  }

  /** The error of skimming an expression: that of the first word that ought to be a number and is not.
      Only words given to a shift, to ! or ~, or to a level that needs a number, ought to be. */
  function SkimError(e: IntExp): Option<Error>
    decreases e
  {
    match e
    case Or(l, r) => First(SkimError(l), SkimError(r))
    case And(l, r) => First(SkimError(l), SkimError(r))
    case Bit(_, l, r) => First(SkimError(l), SkimError(r))
    case Same(_, a, b) => First(WordsError(a), WordsError(b))
    case NumberOf(a) => First(WordsError(a), OperandError(a))
  }

  function WordsError(e: StrExp): Option<Error>
    decreases e
  {
    match e
    case Rel(_, l, r) => First(WordsError(l), WordsError(r))
    case Arith(_, l, r) => First(WordsError(l), WordsError(r))
    case Shift(_, l, r) => First(First(WordsError(l), WordsError(r)), First(OperandError(l), OperandError(r)))
    case Not(s) => First(WordsError(s), OperandError(s))
    case Complement(s) => First(WordsError(s), OperandError(s))
    case Group(g) => SkimError(g)
    case _ => None
  }

  /** An expression can be skimmed just when it has no such word; and if it has one, that is the error. */
  lemma {:induction false} SkimFails(e: IntExp, env: Env)
    ensures if SkimError(e).Some? then Eval(e, true, env) == Fail(SkimError(e).value) else Eval(e, true, env).Val?
    decreases e
  {
    hide Egetn, Putn;
    match e
    case Or(l, r) => SkimFails(l, env); SkimFails(r, env);
    case And(l, r) => SkimFails(l, env); SkimFails(r, env);
    case Bit(_, l, r) => SkimFails(l, env); SkimFails(r, env);
    case Same(_, a, b) => WordsFail(a, env); WordsFail(b, env);
    case NumberOf(a) => WordsFail(a, env);
  }

  lemma {:induction false} WordsFail(e: StrExp, env: Env)
    ensures
      if WordsError(e).Some? then Words(e, true, env) == Fail(WordsError(e).value)
      else
        && Words(e, true, env).Val?
        && var n := Egetn(Words(e, true, env).v);
           if OperandError(e).Some? then n == Fail(OperandError(e).value) else n.Val?
    decreases e
  {
    hide Egetn, Putn, Arithmetic, Shifted;
    forall n | IsInt(n) ensures Egetn(Putn(n)) == Val(n) { EgetnPutn(n); }
    EmptyNumber();
    match e
    case Rel(_, l, r) => WordsFail(l, env); WordsFail(r, env);
    case Arith(_, l, r) => WordsFail(l, env); WordsFail(r, env);
    case Shift(_, l, r) => WordsFail(l, env); WordsFail(r, env);
    case Not(s) => WordsFail(s, env);
    case Complement(s) => WordsFail(s, env);
    case Group(g) => SkimFails(g, env);
    case _ =>
  }

  lemma EmptyNumber()
    ensures Egetn("") == Val(0)
  {
  }

  /** What is only skimmed is never divided. */
  lemma SkimNeverDivides(e: IntExp, env: Env)
    ensures Eval(e, true, env).Fail? ==> !Divides(Eval(e, true, env).error)
  {
    SkimFails(e, env);
    SkimErrors(e);
  }

  lemma {:induction false} SkimErrors(e: IntExp)
    ensures SkimError(e).Some? ==> !Divides(SkimError(e).value)
    decreases e
  {
    match e
    case Or(l, r) => SkimErrors(l); SkimErrors(r);
    case And(l, r) => SkimErrors(l); SkimErrors(r);
    case Bit(_, l, r) => SkimErrors(l); SkimErrors(r);
    case Same(_, a, b) => WordsErrors(a); WordsErrors(b);
    case NumberOf(a) => WordsErrors(a);
  }

  lemma {:induction false} WordsErrors(e: StrExp)
    ensures WordsError(e).Some? ==> !Divides(WordsError(e).value)
    decreases e
  {
    match e
    case Rel(_, l, r) => WordsErrors(l); WordsErrors(r);
    case Arith(_, l, r) => WordsErrors(l); WordsErrors(r);
    case Shift(_, l, r) => WordsErrors(l); WordsErrors(r);
    case Not(s) => WordsErrors(s);
    case Complement(s) => WordsErrors(s);
    case Group(g) => SkimErrors(g);
    case _ =>
  }

  /** What can be evaluated can be skimmed. */
  lemma {:induction false} EvaluatedSkims(e: IntExp, env: Env)
    requires Eval(e, false, env).Val?
    ensures Eval(e, true, env).Val?
    decreases e
  {
    match e
    case Or(l, r) =>
      EvaluatedSkims(l, env);
      if Eval(l, false, env).v == 0 { EvaluatedSkims(r, env); }
    case And(l, r) =>
      EvaluatedSkims(l, env);
      if Eval(l, false, env).v != 0 { EvaluatedSkims(r, env); }
    case Bit(_, l, r) => EvaluatedSkims(l, env); EvaluatedSkims(r, env);
    case Same(_, a, b) => WordsSkim(a, env); WordsSkim(b, env);
    case NumberOf(a) => WordsSkim(a, env);
  }

  /** Skimming gives the same word, or one that is a number. */
  lemma {:induction false} WordsSkim(e: StrExp, env: Env)
    requires Words(e, false, env).Val?
    ensures Words(e, true, env).Val?
    ensures Words(e, true, env).v == Words(e, false, env).v || Egetn(Words(e, true, env).v).Val?
    decreases e
  {
    hide Egetn, Putn, Arithmetic, Shifted;
    forall n | IsInt(n) ensures Egetn(Putn(n)) == Val(n) { EgetnPutn(n); }
    EmptyNumber();
    match e
    case Rel(_, l, r) => WordsSkim(l, env); WordsSkim(r, env);
    case Arith(_, l, r) => WordsSkim(l, env); WordsSkim(r, env);
    case Shift(_, l, r) => WordsSkim(l, env); WordsSkim(r, env);
    case Not(s) => WordsSkim(s, env);
    case Complement(s) => WordsSkim(s, env);
    case Group(g) => EvaluatedSkims(g, env);
    case _ =>
  }

  // ---- What expressions mean ----

  /** An operand is worth a number, or is a word as it stands. */
  datatype Value = Num(n: int) | Text(w: Word)

  function AsNumber(v: Value): Result<int> {
    match v
    case Num(n) => Val(n)
    case Text(w) => Egetn(w)
  }

  function AsText(v: Value): Word {
    match v
    case Num(n) => Putn(n)
    case Text(w) => w
  }

  /** The value of a tree: the right side of || and && only when it matters; ==, !=, =~ and !~ compare
      texts, and all other operators work on numbers. */
  function Mean(e: IntExp, env: Env): Result<int>
    decreases e
  {
    match e
    case Or(l, r) =>
      var a := Mean(l, env);
      if a.Fail? then a
      else if a.v != 0 then Val(1)
      else
        var b := Mean(r, env);
        if b.Fail? then b else Val(Truth(b.v != 0))
    case And(l, r) =>
      var a := Mean(l, env);
      if a.Fail? then a
      else if a.v == 0 then Val(0)
      else
        var b := Mean(r, env);
        if b.Fail? then b else Val(Truth(b.v != 0))
    case Bit(op, l, r) => Twice(Mean(l, env), Mean(r, env), (x, y) => Val(Bitwise(op, x, y)))
    case Same(eq, a, b) =>
      Twice(Meaning(a, env), Meaning(b, env), (x, y) => Val(Truth(Alike(eq, AsText(x), AsText(y), env))))
    case NumberOf(a) =>
      var x := Meaning(a, env);
      if x.Fail? then Fail(x.error) else AsNumber(x.v)
  }

  function Meaning(e: StrExp, env: Env): Result<Value>
    decreases e
  {
    match e
    case Rel(rel, l, r) =>
      Twice(Meaning(l, env), Meaning(r, env), (x, y) => OnNumbers(x, y, (m, n) => Truth(Related(rel, m, n))))
    case Shift(left, l, r) =>
      Twice(Meaning(l, env), Meaning(r, env), (x, y) => OnNumbers(x, y, (m, n) => Shifted(left, m, n, env.shift)))
    case Arith(op, l, r) => Twice(Meaning(l, env), Meaning(r, env), (x, y) => Computed(op, x, y))
    case Not(s) => Once(Meaning(s, env), x => Truth(x == 0))
    case Complement(s) => Once(Meaning(s, env), x => -x - 1)
    case Group(g) => AsValue(Mean(g, env))
    case Empty => Val(Text(""))
    case Atom(w) => Val(Text(w))
    case Command(ws, at) => Val(Num(Truth(env.run(ws, at))))
    case Inquiry(letter, name, at) => Val(Num(Truth(env.inquire(letter, name, at))))
  }

  function Twice<T, U>(a: Result<T>, b: Result<T>, f: (T, T) -> Result<U>): Result<U> {
    if a.Fail? then Fail(a.error) else if b.Fail? then Fail(b.error) else f(a.v, b.v)
  }

  function Once(a: Result<Value>, f: int -> int): Result<Value> {
    if a.Fail? then a
    else
      var n := AsNumber(a.v);
      if n.Fail? then Fail(n.error) else Val(Num(f(n.v)))
  }

  function OnNumbers(x: Value, y: Value, f: (int, int) -> int): Result<Value> {
    var m, n := AsNumber(x), AsNumber(y);
    if m.Fail? then Fail(m.error) else if n.Fail? then Fail(n.error) else Val(Num(f(m.v, n.v)))
  }

  function Computed(op: ArithOp, x: Value, y: Value): Result<Value> {
    var m, n := AsNumber(x), AsNumber(y);
    if op.Over? || op.Modulo? then
      if n.Fail? then Fail(n.error)
      else if n.v == 0 then Fail(if op.Over? then DivByZero else ModByZero)
      else if m.Fail? then Fail(m.error) else AsValue(Arithmetic(op, m.v, n.v))
    else
      if m.Fail? then Fail(m.error) else if n.Fail? then Fail(n.error) else AsValue(Arithmetic(op, m.v, n.v))
  }

  function AsValue(r: Result<int>): Result<Value> {
    if r.Fail? then Fail(r.error) else Val(Num(r.v))
  }

  // ---- When evaluation gives the meaning ----

  /** An error missed on the left; or on the right, if that is come to. */
  function Then<T>(left: Option<Error>, value: Result<T>, right: Option<Error>): Option<Error> {
    if left.Some? || value.Fail? then left else right
  }

  /** The error met in a side of || or && whose value does not matter, unless there was another before. */
  function Missed(e: IntExp, env: Env): Option<Error>
    decreases e
  {
    match e
    case Or(l, r) =>
      var a := Mean(l, env);
      Then(Missed(l, env), a, if a.Val? && a.v != 0 then SkimError(r) else Missed(r, env))
    case And(l, r) =>
      var a := Mean(l, env);
      Then(Missed(l, env), a, if a.Val? && a.v == 0 then SkimError(r) else Missed(r, env))
    case Bit(_, l, r) => Then(Missed(l, env), Mean(l, env), Missed(r, env))
    case Same(_, a, b) => Then(MissedIn(a, env), Meaning(a, env), MissedIn(b, env))
    case NumberOf(a) => MissedIn(a, env)
  }

  function MissedIn(e: StrExp, env: Env): Option<Error>
    decreases e
  {
    match e
    case Rel(_, l, r) => Then(MissedIn(l, env), Meaning(l, env), MissedIn(r, env))
    case Shift(_, l, r) => Then(MissedIn(l, env), Meaning(l, env), MissedIn(r, env))
    case Arith(_, l, r) => Then(MissedIn(l, env), Meaning(l, env), MissedIn(r, env))
    case Not(s) => MissedIn(s, env)
    case Complement(s) => MissedIn(s, env)
    case Group(g) => Missed(g, env)
    case _ => None
  }

  /** What evaluation comes to, exactly: the meaning, but for an error that was met where it did not
      matter. */
  function Outcome(e: IntExp, env: Env): Result<int> {
    match Missed(e, env)
    case Some(error) => Fail(error)
    case None => Mean(e, env)
  }

  lemma {:induction false} EvalIs(e: IntExp, env: Env)
    ensures Eval(e, false, env) == Outcome(e, env)
    decreases e
  {
    hide Egetn, Putn, Bitwise;
    match e
    case Or(l, r) =>
      EvalIs(l, env);
      EvalIs(r, env);
      SkimFails(r, env);
    case And(l, r) =>
      EvalIs(l, env);
      EvalIs(r, env);
      SkimFails(r, env);
    case Bit(_, l, r) =>
      EvalIs(l, env);
      EvalIs(r, env);
    case Same(_, a, b) =>
      WordsAre(a, env);
      WordsAre(b, env);
    case NumberOf(a) => WordsAre(a, env);
  }

  /** A word stands for what it was worked out from. */
  lemma {:induction false} WordsAre(e: StrExp, env: Env)
    ensures var w, m, missed := Words(e, false, env), Meaning(e, env), MissedIn(e, env);
      if missed.Some? then w == Fail(missed.value)
      else if m.Fail? then w == Fail(m.error)
      else w == Val(AsText(m.v)) && Egetn(w.v) == AsNumber(m.v)
    decreases e
  {
    hide Egetn, Putn, Arithmetic, Shifted;
    forall n | IsInt(n) ensures Egetn(Putn(n)) == Val(n) { EgetnPutn(n); }
    match e
    case Rel(_, l, r) => WordsAre(l, env); WordsAre(r, env);
    case Shift(_, l, r) => WordsAre(l, env); WordsAre(r, env);
    case Arith(op, l, r) =>
      WordsAre(l, env);
      WordsAre(r, env);
      DividedMeans(op);
    case Not(s) => WordsAre(s, env);
    case Complement(s) => WordsAre(s, env);
    case Group(g) => EvalIs(g, env);
    case _ =>
  }

  lemma DividedMeans(op: ArithOp)
    ensures forall x, y :: (op.Over? || op.Modulo?) ==>
      if y == 0 then Arithmetic(op, x, y) == Fail(if op.Over? then DivByZero else ModByZero) else Arithmetic(op, x, y).Val?
  {
  }

  /** Evaluation gives the meaning just when no side whose value does not matter holds a word that ought
      to be a number and is not, or when the meaning is an error, and the same. */
  lemma EvalMeans(e: IntExp, env: Env)
    ensures Eval(e, false, env) == Mean(e, env) <==>
      Missed(e, env).None? || Mean(e, env) == Fail(Missed(e, env).value)
    ensures Mean(e, env).Val? ==> (Eval(e, false, env) == Mean(e, env) <==> Missed(e, env).None?)
    ensures Eval(e, false, env).Val? ==> Eval(e, false, env) == Mean(e, env)
  {
    EvalIs(e, env);
  }

  /** So for one operator: || and && are worth what they mean just when what they skip can be skimmed. */
  lemma ShortCircuit(l: IntExp, r: IntExp, env: Env)
    requires Eval(l, false, env) == Mean(l, env) && Eval(r, false, env) == Mean(r, env)
    ensures Eval(Or(l, r), false, env) == Mean(Or(l, r), env) <==>
      (Mean(l, env).Val? && Mean(l, env).v != 0 ==> SkimError(r).None?)
    ensures Eval(And(l, r), false, env) == Mean(And(l, r), env) <==>
      (Mean(l, env).Val? && Mean(l, env).v == 0 ==> SkimError(r).None?)
  {
    SkimFails(r, env);
  }

  /** An expression all of whose words are numbers is always worth what it means. */
  lemma NumbersMean(e: IntExp, env: Env)
    requires Numeric(e)
    ensures Eval(e, false, env) == Mean(e, env)
  {
    NumbersMissNothing(e, env);
    EvalIs(e, env);
  }

  predicate Numeric(e: IntExp) {
    match e
    case Or(l, r) => Numeric(l) && Numeric(r)
    case And(l, r) => Numeric(l) && Numeric(r)
    case Bit(_, l, r) => Numeric(l) && Numeric(r)
    case Same(_, a, b) => OfNumbers(a) && OfNumbers(b)
    case NumberOf(a) => OfNumbers(a)
  }

  predicate OfNumbers(e: StrExp) {
    match e
    case Rel(_, l, r) => OfNumbers(l) && OfNumbers(r)
    case Shift(_, l, r) => OfNumbers(l) && OfNumbers(r)
    case Arith(_, l, r) => OfNumbers(l) && OfNumbers(r)
    case Not(s) => OfNumbers(s)
    case Complement(s) => OfNumbers(s)
    case Group(g) => Numeric(g)
    case Atom(w) => Egetn(w).Val?
    case _ => true
  }

  lemma {:induction false} NumbersMissNothing(e: IntExp, env: Env)
    requires Numeric(e)
    ensures SkimError(e).None? && Missed(e, env).None?
    decreases e
  {
    match e
    case Or(l, r) => NumbersMissNothing(l, env); NumbersMissNothing(r, env);
    case And(l, r) => NumbersMissNothing(l, env); NumbersMissNothing(r, env);
    case Bit(_, l, r) => NumbersMissNothing(l, env); NumbersMissNothing(r, env);
    case Same(_, a, b) => WordsMissNothing(a, env); WordsMissNothing(b, env);
    case NumberOf(a) => WordsMissNothing(a, env);
  }

  lemma {:induction false} WordsMissNothing(e: StrExp, env: Env)
    requires OfNumbers(e)
    ensures WordsError(e).None? && OperandError(e).None? && MissedIn(e, env).None?
    decreases e
  {
    match e
    case Rel(_, l, r) => WordsMissNothing(l, env); WordsMissNothing(r, env);
    case Arith(_, l, r) => WordsMissNothing(l, env); WordsMissNothing(r, env);
    case Shift(_, l, r) => WordsMissNothing(l, env); WordsMissNothing(r, env);
    case Not(s) => WordsMissNothing(s, env);
    case Complement(s) => WordsMissNothing(s, env);
    case Group(g) => NumbersMissNothing(g, env);
    case _ =>
  }

  /** Words that are read as a number where their value does not matter: 1 || abc is an error, although
      it means 1. */
  lemma SkimmedWord(env: Env)
    ensures var e := Or(NumberOf(Atom("1")), NumberOf(Atom("abc")));
      && Parse0(["1", "||", "abc"], env.files, 0) == Tree(e, 3)
      && Mean(e, env) == Val(1) && Eval(e, false, env) == Fail(Expression) && Missed(e, env) == Some(Expression)
  {
    hide Parse0, Egetn;
    ReadOne();
    var ws := ["1", "||", "abc"];
    ParseOr(ws, env.files);
    assert Egetn("abc") == Fail(Expression) by { NoDigit("abc"); }
    SkimFails(NumberOf(Atom("abc")), env);
  }

  lemma NoDigit(w: Word)
    requires w != "" && w[0] != '-' && !IsDigit(w[0])
    ensures Egetn(w) == Fail(Expression)
  {
  }

  lemma ParseOr(ws: seq<Word>, files: nat -> bool)
    requires |ws| == 3 && ws[1] == "||"
    requires forall p :: p in [0, 2] ==> !IsAny(ws[p]) && !IsInquiry(ws[p]) && ws[p] != "{"
    ensures Parse0(ws, files, 0) == Tree(Or(NumberOf(Atom(ws[0])), NumberOf(Atom(ws[2]))), 3)
  {
    hide Parse1, IsAny, IsInquiry;
    assert 0 in [0, 2] && 2 in [0, 2];
    ParseWord(ws, files, 0);
    ParseWord(ws, files, 2);
    assert Parse0(ws, files, 2) == Parse1(ws, files, 2);
  }

  /** A plain word, at the end or before || or &&. */
  lemma ParseWord(ws: seq<Word>, files: nat -> bool, p: nat)
    requires p < |ws| && (p + 1 == |ws| || ws[p + 1] == "||") && !IsAny(ws[p]) && !IsInquiry(ws[p]) && ws[p] != "{"
    ensures Parse1(ws, files, p) == Tree(NumberOf(Atom(ws[p])), p + 1)
  {
    assert Parse6(ws, files, p) == Tree(Atom(ws[p]), p + 1);
    assert Parse5(ws, files, p) == Parse6(ws, files, p);
    assert Parse4(ws, files, p) == Parse5(ws, files, p);
    assert Parse3a(ws, files, p) == Parse4(ws, files, p);
    assert Parse3(ws, files, p) == Parse3a(ws, files, p);
    assert Parse2c(ws, files, p) == Tree(NumberOf(Atom(ws[p])), p + 1);
    assert ParseBits(ws, files, p, BitAnd) == Parse2c(ws, files, p);
    assert ParseBits(ws, files, p, BitXor) == ParseBits(ws, files, p, BitAnd);
    assert ParseBits(ws, files, p, BitOr) == ParseBits(ws, files, p, BitXor);
  }

  lemma ReadOne()
    ensures Egetn("1") == Val(1)
  {
    assert Digits(1) == "1";
    GetnDigits(1);
  }

  // ---- Texts compared, and numbers ----

  /** Comparing the texts of two operands that are numbers tells whether the numbers are the same just
      when the same number does not stand there in two ways; as it never does, if both were worked out. */
  lemma TextsAsNumbers(l: StrExp, r: StrExp, env: Env)
    requires MissedIn(l, env).None? && MissedIn(r, env).None? && Meaning(l, env).Val? && Meaning(r, env).Val?
    requires AsNumber(Meaning(l, env).v).Val? && AsNumber(Meaning(r, env).v).Val?
    ensures var x, y := Meaning(l, env).v, Meaning(r, env).v;
      var same := AsNumber(x) == AsNumber(y);
      && (Eval(Same(EqEq, l, r), false, env) == Val(Truth(same)) <==> (same ==> AsText(x) == AsText(y)))
      && (Eval(Same(NotEq, l, r), false, env) == Val(Truth(!same)) <==> (same ==> AsText(x) == AsText(y)))
      && (x.Num? && y.Num? && same ==> AsText(x) == AsText(y))
  {
    hide Egetn, Putn;
    WordsAre(l, env);
    WordsAre(r, env);
  }

  /** 03 == 3 is false, although both are the number 3; and so it is for every number. */
  lemma LeadingZero(n: nat, env: Env)
    ensures Eval(Same(EqEq, Atom("0" + Digits(n)), Atom(Digits(n))), false, env) == Val(0)
    ensures AsNumber(Text("0" + Digits(n))) == AsNumber(Text(Digits(n)))
    ensures "0" + Digits(3) == "03"
  {
    hide Egetn;
    ZeroInFront(n);
    assert Digits(3) == "3";
  }
}
