/** Sizes and layout of the blocks of the shell's allocator: buckets of powers of two. */
module Buckets {
  import opened Basics

  const NBUCKETS: nat := 30
  const HEADER: nat := 8       // the overhead of a block, aligned

  /** The bytes of a block of a bucket. */
  function Size(bucket: nat): (s: nat)
    ensures s >= 8 && s % 8 == 0
  {
    8 * Pow2(bucket)
  }

  /** Rounding up to a multiple of 8. */
  function Align(n: nat): (a: nat)
    ensures a % 8 == 0 && n <= a < n + 8
  {
    (n + 7) / 8 * 8
  }

  /** s is the quotient of x by p. */
  ghost predicate Quotient(s: nat, p: nat, x: nat) {
    s * p <= x < (s + 1) * p
  }

  lemma QuotientIs(x: nat, s: nat, p: nat)
    ensures Quotient(x / 2, 2, x)
    ensures Quotient(s, p, x) && s > 0 ==> p <= x
    ensures Quotient(0, p, x) ==> x < p
  {
    if Quotient(s, p, x) && s > 0 { NotLess(s, p, x); }
  }

  /** Halving a quotient doubles what it is of. */
  lemma Halved(x: nat, s: nat, p: nat)
    requires p > 0 && Quotient(s, p, x)
    ensures Quotient(s / 2, 2 * p, x)
  {
    var h := s / 2;
    assert s == 2 * h || s == 2 * h + 1;
    assert h * (2 * p) == 2 * h * p && (h + 1) * (2 * p) == (2 * h + 2) * p;
    if s == 2 * h {
      assert (s + 1) * p <= (2 * h + 2) * p;
    } else {
      assert 2 * h * p <= s * p;
    }
  }

  /** The loop that chooses a bucket: the least whose blocks are large enough. */
  method Bucket(nbytes: nat) returns (bucket: nat)
    requires nbytes >= 8 && nbytes % 8 == 0
    ensures nbytes <= Size(bucket) && (bucket > 0 ==> Size(bucket - 1) < nbytes)
  {
    hide Pow2, Size, Quotient;
    var x := (nbytes - 1) / 4;
    bucket := 0;
    var shiftr: nat := x / 2;
    Doubles(0);
    QuotientIs(x, 0, 0);
    while shiftr != 0
      invariant Quotient(shiftr, Pow2(bucket + 1), x)
      invariant bucket > 0 ==> Pow2(bucket) <= x
      decreases shiftr
    {
      QuotientIs(x, shiftr, Pow2(bucket + 1));
      Halved(x, shiftr, Pow2(bucket + 1));
      Doubles(bucket + 1);
      bucket := bucket + 1;
      shiftr := shiftr / 2;
    }
    QuotientIs(x, 0, Pow2(bucket + 1));
    Fits(nbytes, x, bucket);
  }

  lemma Doubles(k: nat)
    ensures Pow2(k + 1) == 2 * Pow2(k) && Pow2(0) == 1
  {
  }

  lemma Fits(nbytes: nat, x: nat, bucket: nat)
    requires nbytes >= 8 && nbytes % 8 == 0 && x == (nbytes - 1) / 4
    requires x < Pow2(bucket + 1) && (bucket > 0 ==> Pow2(bucket) <= x)
    ensures nbytes <= Size(bucket) && (bucket > 0 ==> Size(bucket - 1) < nbytes)
  {
    Doubles(bucket);
    if bucket > 0 { Doubles(bucket - 1); }
  }

  lemma NotLess(s: nat, p: nat, x: nat)
    requires s > 0 && s * p <= x
    ensures p <= x
  {
    assert (s - 1) * p >= 0;
  }

  /** One bucket is least for a size. */
  lemma {:induction false} Grows(a: nat, b: nat)
    requires a <= b
    ensures Size(a) <= Size(b)
  {
    if a < b { Grows(a, b - 1); }
  }

  lemma LeastBucket(nbytes: nat, bucket: nat, other: nat)
    requires nbytes <= Size(bucket) && (bucket > 0 ==> Size(bucket - 1) < nbytes)
    ensures nbytes <= Size(other) <==> bucket <= other
  {
    if bucket <= other {
      Grows(bucket, other);
    } else {
      Grows(other, bucket - 1);
    }
  }

  /** The header and a request fit a block just when they do rounded up. */
  lemma Rounded(n: nat, bucket: nat)
    ensures Align(HEADER + n) <= Size(bucket) <==> HEADER + n <= Size(bucket)
  {
  }

  // ---- Blocks carved out of new memory ----

  function Carved(op: nat, siz: nat, n: nat): (s: seq<nat>)
    ensures |s| == n && forall i :: 0 <= i < n ==> s[i] == op + i * siz
  {
    seq(n, i => op + i * siz)
  }

  lemma Spaced(i: nat, j: nat, siz: nat)
    requires i < j
    ensures i * siz + siz <= j * siz
  {
    var d: nat := j - i - 1;
    Product(d, siz);
    assert j * siz == i * siz + siz + d * siz;
  }

  lemma Product(a: nat, b: nat)
    ensures a * b >= 0
  {
  }

  lemma Aligned(op: nat, i: nat, siz: nat)
    requires op % 8 == 0 && siz % 8 == 0
    ensures (op + i * siz) % 8 == 0
  {
    var k := siz / 8;
    assert i * siz == 8 * (i * k);
  }
}
