/** The order of variable names: by the difference of their first characters, as signed shorts
    (NUL, 0, for an empty name), then as the shell's own strcmp has it. */
module Names {

  type Char = c: int | -0x8000 <= c < 0x8000

  type Name = seq<Char>

  function First(s: Name): int {
    if s == [] then 0 else s[0]
  }

  /** The shell's string comparison: an ended string is low, even against a negative character. */
  function Strcmp(a: Name, b: Name): int {
    if a == [] && b == [] then 0
    else if a == [] then -1
    else if b == [] then 1
    else if a[0] != b[0] then a[0] - b[0]
    else Strcmp(a[1..], b[1..])
  }

  function Compare(a: Name, b: Name): int {
    if First(a) != First(b) then First(a) - First(b) else Strcmp(a, b)
  }

  predicate Less(a: Name, b: Name) {
    Compare(a, b) < 0
  }

  lemma {:induction false} StrcmpMirror(a: Name, b: Name)
    ensures Strcmp(a, b) < 0 <==> Strcmp(b, a) > 0
    ensures Strcmp(a, b) == 0 <==> a == b
  {
    if a != [] && b != [] && a[0] == b[0] {
      StrcmpMirror(a[1..], b[1..]);
      assert a == [a[0]] + a[1..] && b == [b[0]] + b[1..];
    }
  }

  lemma {:induction false} StrcmpTransitive(a: Name, b: Name, c: Name)
    requires Strcmp(a, b) < 0 && Strcmp(b, c) < 0
    ensures Strcmp(a, c) < 0
  {
    if a != [] && b != [] && c != [] && a[0] == b[0] == c[0] {
      StrcmpTransitive(a[1..], b[1..], c[1..]);
    }
  }

  /** The comparison is that of one strict total order. */
  lemma CompareTotal(a: Name, b: Name)
    ensures Compare(a, b) == 0 <==> a == b
    ensures Compare(a, b) > 0 <==> Less(b, a)
  {
    StrcmpMirror(a, b);
    StrcmpMirror(b, a);
  }

  lemma LessTransitive(a: Name, b: Name, c: Name)
    requires Less(a, b) && Less(b, c)
    ensures Less(a, c)
  {
    if First(a) == First(b) == First(c) {
      StrcmpTransitive(a, b, c);
    }
  }
}
