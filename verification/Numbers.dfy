/** The shell's numbers: 32-bit integers that wrap around, and the decimal words for them. */
module Numbers {
  import opened Basics

  const M: int := 0x1_0000_0000

  /** An integer as a 32-bit word has it. */
  function Wrap(x: int): (r: int)
    ensures -0x8000_0000 <= r < 0x8000_0000
  {
    var m := x % M;
    if m >= 0x8000_0000 then m - M else m
  }

  predicate IsInt(x: int) {
    -0x8000_0000 <= x < 0x8000_0000
  }

  lemma WrapInt(x: int)
    requires IsInt(x)
    ensures Wrap(x) == x
  {
  }

  /** Wrapping differs by a number of whole words. */
  lemma WrapBy(x: int) returns (k: int)
    ensures Wrap(x) == x + k * M
  {
    k := if x % M >= 0x8000_0000 then -(x / M) - 1 else -(x / M);
  }

  lemma WrapSame(x: int, k: int)
    ensures Wrap(x + k * M) == Wrap(x)
  {
    assert (x + k * M) % M == x % M;
  }

  datatype Error = Expression | BadNum | DivByZero | ModByZero

  datatype Result<T> = Val(v: T) | Fail(error: Error)

  predicate IsDigit(c: char) {
    '0' <= c <= '9'
  }

  function Digit(n: nat): (c: char)
    requires n < 10
    ensures IsDigit(c) && c as int - '0' as int == n
  {
    '0' + n as char
  }

  /** putn1: the decimal digits of a number. */
  function Digits(n: nat): (s: string)
    ensures s != [] && forall i :: 0 <= i < |s| ==> IsDigit(s[i])
  {
    (if n > 9 then Digits(n / 10) else []) + [Digit(n % 10)]
  }

  /** putn. */
  function Putn(n: int): string {
    if n < 0 then "-" + Digits(-n) else Digits(n)
  }

  /** How many digits a word begins with. */
  function DigitCount(s: string): (k: nat)
    ensures k <= |s| && (forall i :: 0 <= i < k ==> IsDigit(s[i])) && (k < |s| ==> !IsDigit(s[k]))
  {
    if s == "" || !IsDigit(s[0]) then 0 else 1 + DigitCount(s[1..])
  }

  /** The number that digits make, as it comes out of the loop of getn. */
  function Number(s: string): int
    requires forall i :: 0 <= i < |s| ==> IsDigit(s[i])
  {
    if s == "" then 0
    else Wrap(Number(s[..|s| - 1]) * 10 + (s[|s| - 1] as int - '0' as int))
  }

  function Unsigned(s: string): Result<int> {
    var k := DigitCount(s);
    if k < |s| then Fail(BadNum) else Val(Number(s))
  }

  /** getn: a sign, perhaps, and digits, and nothing else. */
  function Getn(s: string): Result<int> {
    var t := if |s| > 1 && s[0] == '+' then s[1..] else s;
    if t != "" && t[0] == '-' then
      if |t| == 1 || !IsDigit(t[1]) then Fail(BadNum)
      else
        var r := Unsigned(t[1..]);
        if r.Fail? then r else Val(Wrap(-r.v))
    else Unsigned(t)
  }

  /** egetn: a number in an expression, which may be empty but does not start with a plus sign. */
  function Egetn(s: string): Result<int> {
    if s != "" && s[0] != '-' && !IsDigit(s[0]) then Fail(Expression) else Getn(s)
  }

  lemma OneDigitMore(n: nat)
    ensures Wrap(Wrap(n / 10) * 10 + n % 10) == Wrap(n)
  {
    hide Wrap;
    var k := WrapBy(n / 10);
    assert Wrap(n / 10) * 10 + n % 10 == n + (10 * k) * M;
    WrapSame(n, 10 * k);
  }

  lemma {:induction false} NumberDigits(n: nat)
    ensures Number(Digits(n)) == Wrap(n)
  {
    hide Wrap;
    var s := Digits(n);
    var d := n % 10;
    assert s[|s| - 1] == Digit(d);
    if n <= 9 {
      assert s[..|s| - 1] == "";
    } else {
      assert s[..|s| - 1] == Digits(n / 10);
      NumberDigits(n / 10);
      OneDigitMore(n);
    }
  }

  lemma {:induction false} AllDigits(s: string)
    requires forall i :: 0 <= i < |s| ==> IsDigit(s[i])
    ensures DigitCount(s) == |s|
  {
    if s != "" { AllDigits(s[1..]); }
  }

  lemma GetnDigits(n: nat)
    ensures var ds := Digits(n); Unsigned(ds) == Val(Wrap(n)) && Getn(ds) == Val(Wrap(n)) && Egetn(ds) == Val(Wrap(n))
  {
    var ds := Digits(n);
    AllDigits(ds);
    NumberDigits(n);
    assert IsDigit(ds[0]);
  }

  /** Writing a number and reading it back. */
  lemma EgetnPutn(n: int)
    requires IsInt(n)
    ensures Egetn(Putn(n)) == Val(n)
  {
    hide Digits, DigitCount, Unsigned, Wrap;
    WrapInt(n);
    if n < 0 {
      var m: nat, ds := -n, Digits(-n);
      GetnDigits(m);
      assert Putn(n)[1..] == ds && Putn(n)[0] == '-' && Putn(n)[1] == ds[0];
      var k := WrapBy(m);
      assert -Wrap(m) == n + (-k) * M;
      WrapSame(n, -k);
    } else {
      GetnDigits(n);
    }
  }

  lemma {:induction false} NumberZero(s: string)
    requires forall i :: 0 <= i < |s| ==> IsDigit(s[i])
    ensures Number("0" + s) == Number(s)
  {
    var t := "0" + s;
    if s == "" {
      assert t[..0] == "" && t[0] == '0';
    } else {
      assert t[..|t| - 1] == "0" + s[..|s| - 1];
      NumberZero(s[..|s| - 1]);
    }
  }

  /** A zero in front does not change a number, but the word. */
  lemma ZeroInFront(n: nat)
    ensures Egetn("0" + Digits(n)) == Egetn(Digits(n)) && "0" + Digits(n) != Digits(n)
  {
    hide Digits;
    GetnDigits(n);
    NumberDigits(n);
    AllDigits("0" + Digits(n));
    NumberZero(Digits(n));
    assert |"0" + Digits(n)| != |Digits(n)|;
  }

  // ---- Operators ----

  /** Division that cuts towards zero. */
  function Quotient(a: int, b: int): int
    requires b != 0
  {
    if (a < 0) == (b < 0) then Abs(a) / Abs(b) else -(Abs(a) / Abs(b))
  }

  function Abs(a: int): (r: nat)
    ensures r == a || r == -a
  {
    if a < 0 then -a else a
  }

  function Bits(a: int): bv32 {
    (a % M) as bv32
  }

  function FromBits(b: bv32): (r: int)
    ensures IsInt(r)
  {
    Wrap(b as int)
  }

  datatype BitOp = BitOr | BitXor | BitAnd

  function Bitwise(op: BitOp, a: int, b: int): (r: int)
    ensures IsInt(r)
  {
    match op
    case BitOr => FromBits(Bits(a) | Bits(b))
    case BitXor => FromBits(Bits(a) ^ Bits(b))
    case BitAnd => FromBits(Bits(a) & Bits(b))
  }

  /** Shifts, by counts the machine takes; what it makes of others is not said. */
  function Shifted(left: bool, a: int, b: int, other: (int, int) -> int): (r: int)
    ensures IsInt(r)
  {
    if 0 <= b < 32 then
      if left then Wrap(a * Pow2(b)) else Wrap(a / Pow2(b))
    else Wrap(other(a, b))
  }

  datatype ArithOp = Plus | Minus | Times | Over | Modulo

  /** What an arithmetic operator makes of two numbers. */
  function Arithmetic(op: ArithOp, a: int, b: int): (r: Result<int>)
    ensures r.Val? ==> IsInt(r.v)
  {
    match op
    case Plus => Val(Wrap(a + b))
    case Minus => Val(Wrap(a - b))
    case Times => Val(Wrap(a * b))
    case Over => if b == 0 then Fail(DivByZero) else Val(Wrap(Quotient(a, b)))
    case Modulo => if b == 0 then Fail(ModByZero) else Val(Wrap(a - b * Quotient(a, b)))
  }

  function Truth(b: bool): (r: int)
    ensures IsInt(r)
  {
    if b then 1 else 0
  }

  datatype RelOp = Gtr | GtrEq | Lss | LssEq

  predicate Related(op: RelOp, a: int, b: int) {
    match op
    case Gtr => a > b
    case GtrEq => a >= b
    case Lss => a < b
    case LssEq => a <= b
  }
}
