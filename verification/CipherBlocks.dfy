/** Cipher block chaining over any cipher of eight-byte blocks (section 3 of FIPS PUB 81), with the
    padding of the editor: always a last block, whose last byte says how many of its bytes count. */
module CipherBlocks {

  type Byte = bv8
  type Bytes = seq<Byte>

  const N: nat := 8

  /** A cipher of blocks, and its inverse. */
  ghost predicate Inverse(enc: Bytes -> Bytes, dec: Bytes -> Bytes) {
    && Sized(enc) && Sized(dec)
    && forall b :: |b| == N ==> dec(enc(b)) == b
  }

  /** From blocks to blocks. */
  ghost predicate Sized(f: Bytes -> Bytes) {
    forall b :: |b| == N ==> |f(b)| == N
  }

  function XorByte(a: Byte, b: Byte): Byte {
    a ^ b
  }

  function Xor(a: Bytes, b: Bytes): (c: Bytes)
    requires |a| == |b|
    ensures |c| == |a|
  {
    seq(|a|, i requires 0 <= i < |a| => XorByte(a[i], b[i]))
  }

  lemma XorTwice(a: Bytes, b: Bytes)
    requires |a| == |b|
    ensures Xor(Xor(a, b), b) == a
  {
    forall i | 0 <= i < |a| ensures Xor(Xor(a, b), b)[i] == a[i] {
      assert XorByte(XorByte(a[i], b[i]), b[i]) == a[i];
    }
  }

  const ZERO: Bytes := [0, 0, 0, 0, 0, 0, 0, 0]

  /** The vector for the next block: the last block of ciphertext, zero before the first. */
  function Vector(c: Bytes): (iv: Bytes)
    ensures |iv| == N
  {
    if |c| < N then ZERO else c[|c| - N..]
  }

  predicate Blocks(s: Bytes) {
    |s| % N == 0
  }

  /** The ciphertext of whole blocks. */
  ghost function Chain(s: Bytes, enc: Bytes -> Bytes): (c: Bytes)
    requires Blocks(s) && Sized(enc)
    ensures |c| == |s|
  {
    if s == [] then []
    else
      var c := Chain(s[..|s| - N], enc);
      c + enc(Xor(s[|s| - N..], Vector(c)))
  }

  /** The plain text of whole blocks of ciphertext. */
  ghost function Unchain(c: Bytes, dec: Bytes -> Bytes): (s: Bytes)
    requires Blocks(c) && Sized(dec)
    ensures |s| == |c|
  {
    if c == [] then []
    else Unchain(c[..|c| - N], dec) + Xor(dec(c[|c| - N..]), Vector(c[..|c| - N]))
  }

  lemma {:induction false} UnchainChain(s: Bytes, enc: Bytes -> Bytes, dec: Bytes -> Bytes)
    requires Blocks(s) && Inverse(enc, dec)
    ensures Unchain(Chain(s, enc), dec) == s
  {
    if s != [] {
      var s0, last := s[..|s| - N], s[|s| - N..];
      var c0 := Chain(s0, enc);
      var b := enc(Xor(last, Vector(c0)));
      UnchainChain(s0, enc, dec);
      assert (c0 + b)[..|c0 + b| - N] == c0 && (c0 + b)[|c0 + b| - N..] == b;
      assert dec(b) == Xor(last, Vector(c0));
      XorTwice(last, Vector(c0));
    }
  }

  /** One block more. */
  lemma ChainMore(s: Bytes, b: Bytes, enc: Bytes -> Bytes)
    requires Blocks(s) && |b| == N && Sized(enc)
    ensures Blocks(s + b) && Chain(s + b, enc) == Chain(s, enc) + enc(Xor(b, Vector(Chain(s, enc))))
    ensures Vector(Chain(s + b, enc)) == enc(Xor(b, Vector(Chain(s, enc))))
  {
    assert (s + b)[..|s + b| - N] == s && (s + b)[|s + b| - N..] == b;
    var c, e := Chain(s, enc), enc(Xor(b, Vector(Chain(s, enc))));
    assert (c + e)[|c + e| - N..] == e;
  }

  lemma UnchainMore(c: Bytes, b: Bytes, dec: Bytes -> Bytes)
    requires Blocks(c) && |b| == N && Sized(dec)
    ensures Blocks(c + b) && Unchain(c + b, dec) == Unchain(c, dec) + Xor(dec(b), Vector(c)) && Vector(c + b) == b
  {
    assert (c + b)[..|c + b| - N] == c && (c + b)[|c + b| - N..] == b;
  }

  // ---- The last block ----

  /** A small number as a byte. */
  function Count(n: nat): (b: Byte)
    requires n < N
    ensures b as int == n
  {
    n as bv8
  }

  /** The bytes left over, padded, with their number in the last byte. */
  function Last(r: Bytes, pvec: Bytes): (b: Bytes)
    requires |r| < N && |pvec| == N
    ensures |b| == N && b[..|r|] == r && b[N - 1] == Count(|r|)
  {
    (r + pvec[..N - |r|])[N - 1 := Count(|r|)]
  }

  function Whole(s: Bytes): (w: nat)
    ensures w <= |s| && |s| - w == |s| % N && w % N == 0
  {
    |s| - |s| % N
  }

  function Padded(s: Bytes, pvec: Bytes): (p: Bytes)
    requires |pvec| == N
    ensures Blocks(p) && |p| == |s| + 8 - |s| % 8
  {
    s[..Whole(s)] + Last(s[Whole(s)..], pvec)
  }

  /** The file a text is written to. */
  ghost function Ciphertext(s: Bytes, pvec: Bytes, enc: Bytes -> Bytes): Bytes
    requires |pvec| == N && Sized(enc)
  {
    Chain(Padded(s, pvec), enc)
  }

  /** What is read back from a file, and whether it ends as it should: all the blocks but the last, and
      of that as much as its last byte says. Bytes that are no whole block are lost. */
  ghost function Readable(c: Bytes, dec: Bytes -> Bytes): (Bytes, bool)
    requires Sized(dec)
  {
    if !Blocks(c) then (Unchain(c[..Whole(c)], dec), false)
    else if c == [] then ([], true)
    else
      var p := Unchain(c, dec);
      var n := p[|p| - 1] as int;
      if n < N then (p[..|p| - N + n], true) else (p[..|p| - N], false)
  }

  /** What the last byte says leads back to the text. */
  lemma PaddedBack(s: Bytes, pvec: Bytes)
    requires |pvec| == N
    ensures var p := Padded(s, pvec);
      var n := p[|p| - 1] as int;
      n < N && n == |s| % N && p[..|p| - N + n] == s
  {
    hide Last, Count;
    var w, p := Whole(s), Padded(s, pvec);
    var r := s[w..];
    var last := Last(r, pvec);
    assert p == s[..w] + last && p[|p| - 1] == last[N - 1];
    assert (s[..w] + last)[..w + |r|] == s[..w] + last[..|r|];
    assert s[..w] + r == s;
  }

  /** Reading gives back what was written, and the length is what the editor reports. */
  lemma RoundTrip(s: Bytes, pvec: Bytes, enc: Bytes -> Bytes, dec: Bytes -> Bytes)
    requires |pvec| == N && Inverse(enc, dec)
    ensures Readable(Ciphertext(s, pvec, enc), dec) == (s, true)
    ensures |Ciphertext(s, pvec, enc)| == |s| + 8 - |s| % 8
  {
    hide Chain, Unchain, Padded;
    UnchainChain(Padded(s, pvec), enc, dec);
    PaddedBack(s, pvec);
  }
}
