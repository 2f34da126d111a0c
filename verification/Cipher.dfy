/** The editor's stream of enciphered characters: one block buffered, one character put or got at a
    time. A character read is a byte or the end. */
module Cipher {
  import opened CipherBlocks

  datatype Got = Char(c: Byte) | End

  class File {
    var data: Bytes
    var pos: nat

    constructor (data: Bytes)
      ensures this.data == data && pos == 0
    {
      this.data, pos := data, 0;
    }
  }

  /** What has been shown of a file, up to a position between blocks. */
  ghost function Shown(data: Bytes, pos: nat, dec: Bytes -> Bytes): Bytes
    requires pos <= |data| && Blocks(data[..pos]) && Sized(dec)
  {
    if pos == |data| then Readable(data, dec).0 else Unchain(data[..pos], dec)
  }

  class Stream {
    const enc: Bytes -> Bytes
    const dec: Bytes -> Bytes
    const pvec: Bytes
    const desBuf: array<Byte>
    const ivec: array<Byte>
    var desN: nat
    var desCt: int
    var failed: bool         // whether an error message was left

    ghost var put: Bytes     // the characters put so far
    ghost var done: Bytes    // those of them in blocks that are written
    ghost var got: Bytes     // those got so far
    ghost var ended: bool

    /** desinit, with the bytes the padding is taken from. */
    constructor (enc: Bytes -> Bytes, dec: Bytes -> Bytes, pvec: Bytes)
      requires |pvec| == N && Inverse(enc, dec)
      ensures Whole() && fresh(desBuf) && fresh(ivec) && this.enc == enc && this.dec == dec && this.pvec == pvec
      ensures desN == 0 && desCt == 0 && !failed && put == [] && done == [] && got == [] && !ended && ivec[..] == ZERO
    {
      this.enc, this.dec, this.pvec := enc, dec, pvec;
      desBuf, ivec := new Byte[N], new Byte[N](i => 0);
      desN, desCt, failed := 0, 0, false;
      put, done, got, ended := [], [], [], false;
    }

    ghost predicate Whole() {
      Inverse(enc, dec) && |pvec| == N && desBuf != ivec && desBuf.Length == N && ivec.Length == N
    }

    method Fill(a: array<Byte>, b: Bytes)
      requires a.Length == |b|
      modifies a
      ensures a[..] == b
    {
      forall i | 0 <= i < a.Length {
        a[i] := b[i];
      }
    }

    method XorBuf()
      requires Whole()
      modifies desBuf
      ensures desBuf[..] == Xor(old(desBuf[..]), ivec[..])
    {
      hide XorByte, Xor, Vector;
      ghost var was, iv := desBuf[..], ivec[..];
      var n := 0;
      while n < N
        invariant 0 <= n <= N && ivec[..] == iv
        invariant forall i :: 0 <= i < n ==> desBuf[i] == XorByte(was[i], iv[i])
        invariant forall i :: n <= i < N ==> desBuf[i] == was[i]
      {
        desBuf[n] := XorByte(desBuf[n], ivec[n]);
        n := n + 1;
      }
      XorIs(was, iv, desBuf[..]);
    }

    static lemma XorIs(a: Bytes, b: Bytes, c: Bytes)
      requires |a| == |b| == |c| && forall i :: 0 <= i < |a| ==> c[i] == XorByte(a[i], b[i])
      ensures c == Xor(a, b)
    {
      hide XorByte;
    }

    // ---- Writing ----

    /** All but what is in the buffer is written, in whole blocks. */
    ghost predicate Writing(fp: File)
      reads this, desBuf, ivec, fp
    {
      && Whole() && desN <= N && desCt >= 0 && put == done + desBuf[..desN]
      && Blocks(done) && fp.data == Chain(done, enc) && ivec[..] == Vector(fp.data)
    }

    /** cbcenc of a whole block: chained, and written. */
    method EncBlock(fp: File) returns (r: int)
      requires Whole() && ivec[..] == Vector(fp.data)
      modifies desBuf, ivec, fp`data
      ensures r == 8 && fp.data == old(fp.data) + enc(Xor(old(desBuf[..]), Vector(old(fp.data))))
      ensures ivec[..] == enc(Xor(old(desBuf[..]), Vector(old(fp.data))))
    {
      XorBuf();
      Fill(desBuf, enc(desBuf[..]));
      Fill(ivec, desBuf[..]);
      fp.data := fp.data + desBuf[..];
      r := 8;
    }

    /** cbcenc of the last block, of n bytes. */
    method EncLast(n: nat, fp: File) returns (r: int)
      requires Whole() && n < N
      modifies desBuf, fp`data
      ensures r == 8 && fp.data == old(fp.data) + enc(Xor(Last(old(desBuf[..n]), pvec), ivec[..]))
    {
      hide Xor, Last;
      PadBuf(n);
      XorBuf();
      Fill(desBuf, enc(desBuf[..]));
      fp.data := fp.data + desBuf[..];
      r := 8;
    }

    /** The padding, and the number of bytes that count. */
    method PadBuf(n: nat)
      requires Whole() && n < N
      modifies desBuf
      ensures desBuf[..] == Last(old(desBuf[..n]), pvec)
    {
      hide Vector, Count;
      ghost var r := desBuf[..n];
      PadBytes(n);
      desBuf[7] := Count(n);
      SetLast(desBuf, r + pvec[..N - n], Count(n));
    }

    method PadBytes(n: nat)
      requires desBuf.Length == N && |pvec| == N && n < N
      modifies desBuf
      ensures desBuf[..] == old(desBuf[..n]) + pvec[..N - n]
    {
      forall i | n <= i < N {
        desBuf[i] := pvec[i - n];
      }
    }

    static lemma SetLast(a: array<Byte>, s: Bytes, b: Byte)
      requires a.Length == N == |s| && a[N - 1] == b && forall i :: 0 <= i < N - 1 ==> a[i] == s[i]
      ensures a[..] == s[N - 1 := b]
    {
    }

    /** A full buffer is written out. */
    method Full(fp: File)
      requires Writing(fp) && desN == N
      modifies `desN, `desCt, `done, desBuf, ivec, fp`data
      ensures Writing(fp) && desN == 0
    {
      hide Chain, Vector, Xor, Blocks;
      ghost var b := desBuf[..];
      assert desBuf[..N] == b;
      ChainMore(done, b, enc);
      desCt := EncBlock(fp);
      desN := 0;
      done := done + b;
      assert put == done + desBuf[..0];
    }

    method DesPutC(c: Byte, fp: File)
      requires Writing(fp)
      modifies this, desBuf, ivec, fp`data
      ensures Writing(fp) && put == old(put) + [c]
    {
      hide Chain, Vector, Blocks, Inverse;
      if desN == N {
        Full(fp);
      }
      Hold(c);
    }

    /** Putting a character in the buffer. */
    method Hold(c: Byte)
      requires desN < N && desBuf.Length == N && desBuf != ivec && put == done + desBuf[..desN]
      modifies `desN, `put, desBuf
      ensures desN == old(desN) + 1 && put == old(put) + [c] && put == done + desBuf[..desN]
    {
      ghost var held := desBuf[..desN];
      desBuf[desN] := c;
      desN := desN + 1;
      put := put + [c];
      assert desBuf[..desN] == held + [c];
    }

    /** desflush: the last block, which there always is. */
    method DesFlush(fp: File)
      requires Writing(fp)
      modifies this, desBuf, ivec, fp`data
      ensures fp.data == Ciphertext(put, pvec, enc) && put == old(put)
    {
      hide Chain, Vector, Last, Xor;
      if desN == N {
        Full(fp);
      }
      ghost var r := desBuf[..desN];
      ChainMore(done, Last(r, pvec), enc);
      PaddedIs(done, r, pvec);
      var status := EncLast(desN, fp);
    }

    static lemma PaddedIs(s: Bytes, r: Bytes, pvec: Bytes)
      requires Blocks(s) && |r| < N && |pvec| == N
      ensures Padded(s + r, pvec) == s + Last(r, pvec)
    {
      assert |s + r| % N == |r|;
      assert (s + r)[..|s|] == s && (s + r)[|s|..] == r;
    }

    // ---- Reading ----

    /** What was got, and what is in the buffer, is what the file has shown so far. */
    ghost predicate Reading(fp: File)
      reads this, desBuf, ivec, fp
    {
      && Whole() && fp.pos <= |fp.data|
      && if ended then
           && fp.pos == |fp.data| && desN >= desCt
           && Readable(fp.data, dec) == (got, !failed)
         else
           && desN <= desCt <= N && Blocks(fp.data[..fp.pos]) && ivec[..] == Vector(fp.data[..fp.pos])
           && (fp.pos == |fp.data| ==> Readable(fp.data, dec).1) && !failed
           && got + desBuf[desN..desCt] == Shown(fp.data, fp.pos, dec)
    }

    static lemma ShownMore(data: Bytes, pos: nat, got: Bytes, p: Bytes, iv: Bytes, dec: Bytes -> Bytes)
      requires pos + N <= |data| && Blocks(data[..pos]) && Sized(dec)
      requires got == Shown(data, pos, dec) && p == Xor(dec(data[pos..pos + N]), Vector(data[..pos]))
      ensures Blocks(data[..pos + N]) && Vector(data[..pos + N]) == data[pos..pos + N]
      ensures pos + N < |data| ==> Shown(data, pos + N, dec) == got + p
      ensures pos + N == |data| ==>
        var n := p[N - 1] as int;
        if n < N then Readable(data, dec) == (got + p[..n], true) && Shown(data, pos + N, dec) == got + p[..n]
        else Readable(data, dec) == (got, false)
    {
      hide Unchain, Vector, Xor, Blocks;
      var c, b := data[..pos], data[pos..pos + N];
      assert data[..pos + N] == c + b;
      UnchainMore(c, b, dec);
      if pos + N == |data| {
        assert c + b == data;
        LastOf(got, p);
      }
    }

    static lemma LastOf(a: Bytes, p: Bytes)
      requires |p| == N
      ensures var s := a + p; s[|s| - 1] == p[N - 1] && s[..|s| - N] == a
      ensures forall n :: 0 <= n <= N ==> (a + p)[..|a + p| - N + n] == a + p[..n]
    {
    }

    static lemma ShownAll(data: Bytes, pos: nat, dec: Bytes -> Bytes)
      requires pos <= |data| < pos + N && Blocks(data[..pos]) && Sized(dec)
      requires pos == |data| ==> Readable(data, dec).1
      ensures Readable(data, dec) == (Shown(data, pos, dec), pos == |data|)
    {
      hide Unchain;
      assert |data[..pos]| == pos && pos % N == 0;
      if pos < |data| {
        LeftOver(pos, |data|);
        assert !Blocks(data) && CipherBlocks.Whole(data) == pos;
      }
    }

    /** Deciphering a block in the buffer. */
    method DecBlock()
      requires Whole()
      modifies desBuf, ivec
      ensures ivec[..] == old(desBuf[..]) && desBuf[..] == Xor(dec(old(desBuf[..])), old(ivec[..]))
    {
      hide Xor;
      var ibuf := desBuf[..];
      Fill(desBuf, dec(desBuf[..]));
      XorBuf();
      Fill(ivec, ibuf);
    }

    /** Between blocks: what was got is what the file has shown so far. */
    ghost predicate Between(fp: File)
      reads this, ivec, fp
    {
      && Whole() && fp.pos <= |fp.data|
      && if ended then fp.pos == |fp.data| && Readable(fp.data, dec) == (got, !failed)
         else
           && Blocks(fp.data[..fp.pos]) && ivec[..] == Vector(fp.data[..fp.pos])
           && (fp.pos == |fp.data| ==> Readable(fp.data, dec).1) && !failed && got == Shown(fp.data, fp.pos, dec)
    }

    /** The part of cbcdec for a whole block. */
    method DecNext(fp: File) returns (n: int)
      requires Between(fp) && !ended && |fp.data| - fp.pos >= N
      modifies `failed, `ended, desBuf, ivec, fp`pos
      ensures fp.pos <= |fp.data| && -1 <= n <= N
      ensures n == -1 ==> Between(fp) && ended
      ensures n >= 0 ==> !ended && Block(fp, n)
    {
      hide Unchain, Vector, Xor, Readable, Shown, Blocks;
      ghost var pos := fp.pos;
      Fill(desBuf, fp.data[fp.pos..fp.pos + N]);
      fp.pos := fp.pos + N;
      DecBlock();
      ghost var p := desBuf[..];
      ShownMore(fp.data, pos, got, p, ivec[..], dec);
      assert desBuf[..N] == p;
      n := 8;
      if fp.pos == |fp.data| {
        n := desBuf[7] as int;
        if n > 7 {
          failed, ended := true, true;
          n := -1;
        } else {
          assert desBuf[..n] == p[..n];
        }
      }
    }

    /** After a block of n characters. */
    ghost predicate Block(fp: File, n: nat)
      requires n <= N
      reads this, desBuf, ivec, fp
    {
      && Whole() && fp.pos <= |fp.data| && Blocks(fp.data[..fp.pos]) && ivec[..] == Vector(fp.data[..fp.pos])
      && (fp.pos == |fp.data| ==> Readable(fp.data, dec).1) && !failed && got + desBuf[..n] == Shown(fp.data, fp.pos, dec)
      && (n == 0 ==> fp.pos == |fp.data|)
    }

    /** cbcdec: the number of characters of the next block, which is 8 but for the last; or -1 at the
        end, or at an error. */
    method CbcDec(fp: File) returns (n: int)
      requires Between(fp)
      modifies `failed, `ended, desBuf, ivec, fp`pos
      ensures fp.pos <= |fp.data| && -1 <= n <= N
      ensures n == -1 ==> Between(fp) && ended
      ensures n >= 0 ==> !ended && Block(fp, n)
    {
      hide Unchain, Vector, Xor, Readable, Shown, Blocks, Block;
      if |fp.data| - fp.pos >= N {
        n := DecNext(fp);
      } else {
        if !ended { ShownAll(fp.data, fp.pos, dec); }
        if fp.pos < |fp.data| {
          failed := true;
        }
        ended := true;
        fp.pos := |fp.data|;
        n := -1;
      }
    }

    /** The next block, when the last is used up. */
    method Load(fp: File)
      requires Reading(fp) && desN >= desCt
      modifies `desN, `desCt, `failed, `ended, desBuf, ivec, fp`pos
      ensures desN == 0 && Whole() && fp.pos <= |fp.data|
      ensures desCt > 0 ==> Reading(fp) && !ended
      ensures desCt <= 0 ==> fp.pos == |fp.data| && Readable(fp.data, dec) == (got, !failed)
    {
      hide Readable, Shown, Blocks, Sized, Vector;
      if !ended { assert got + desBuf[desN..desCt] == got; }
      desN := 0;
      desCt := CbcDec(fp);
      if desCt >= 0 {
        assert desBuf[..desCt] == desBuf[desN..desCt];
        if desCt == 0 {
          assert got + desBuf[..0] == got;
          ShownEnd(fp.data, dec);
        }
      }
    }

    /** A character out of the buffer. */
    method Take(fp: File) returns (c: Byte)
      requires Reading(fp) && desN < desCt
      modifies `desN, `got
      ensures Reading(fp) && got == old(got) + [c] && |got| <= |fp.data|
    {
      hide Readable, Shown, Blocks, Sized, Vector;
      ShownShort(fp.data, fp.pos, dec);
      c := desBuf[desN];
      assert desBuf[desN..desCt] == [c] + desBuf[desN + 1..desCt];
      assert got + ([c] + desBuf[desN + 1..desCt]) == got + [c] + desBuf[desN + 1..desCt];
      got := got + [c];
      desN := desN + 1;
    }

    /** desgetc: the next character of the file's text, or its end. */
    method DesGetC(fp: File) returns (c: Got)
      requires Reading(fp)
      modifies this, desBuf, ivec, fp`pos
      ensures Reading(fp)
      ensures c.Char? ==> got == old(got) + [c.c] && |got| <= |fp.data|
      ensures c.End? ==> got == old(got) && Readable(fp.data, dec) == (got, !failed)
    {
      hide Readable, Shown, Blocks, Sized, Vector;
      if desN >= desCt {
        Load(fp);
      }
      if desCt > 0 {
        var b := Take(fp);
        c := Char(b);
      } else {
        c := End;
        ended := true;
      }
    }

    /** Everything up to the end. */
    method ReadAll(fp: File) returns (s: Bytes)
      requires Reading(fp) && got == []
      modifies this, desBuf, ivec, fp`pos
      ensures Readable(fp.data, dec) == (s, !failed)
    {
      hide Reading, Readable;
      s := [];
      while true
        invariant Reading(fp) && got == s && |s| <= |fp.data|
        decreases |fp.data| - |s|
      {
        var c := DesGetC(fp);
        if c.End? {
          return;
        }
        s := s + [c.c];
      }
    }

    method WriteAll(s: Bytes, fp: File)
      requires Writing(fp) && put == []
      modifies this, desBuf, ivec, fp`data
      ensures fp.data == Ciphertext(s, pvec, enc)
    {
      hide Writing, Ciphertext;
      var i := 0;
      while i < |s|
        invariant 0 <= i <= |s| && Writing(fp) && put == s[..i]
      {
        DesPutC(s[i], fp);
        assert s[..i + 1] == s[..i] + [s[i]];
        i := i + 1;
      }
      assert s[..i] == s;
      DesFlush(fp);
    }

    static lemma LeftOver(pos: nat, n: nat)
      requires pos % N == 0 && pos < n < pos + N
      ensures n % N == n - pos
    {
    }

    static lemma ShownShort(data: Bytes, pos: nat, dec: Bytes -> Bytes)
      requires pos <= |data| && Sized(dec)
      ensures |Readable(data, dec).0| <= |data|
      ensures Blocks(data[..pos]) ==> |Shown(data, pos, dec)| <= |data|
    {
    }

    static lemma ShownEnd(data: Bytes, dec: Bytes -> Bytes)
      requires Blocks(data[..|data|]) && Sized(dec)
      ensures data[..|data|] == data && Shown(data, |data|, dec) == Readable(data, dec).0
    {
      assert data[..|data|] == data;
    }
  }

  /** Writing a text to a new file. */
  method Encipher(s: Bytes, pvec: Bytes, enc: Bytes -> Bytes, dec: Bytes -> Bytes) returns (f: File)
    requires |pvec| == N && Inverse(enc, dec)
    ensures fresh(f) && f.data == Ciphertext(s, pvec, enc)
  {
    hide Ciphertext, Inverse;
    var w := new Stream(enc, dec, pvec);
    f := new File([]);
    assert w.desBuf[..0] == [];
    SizedBoth(enc, dec);
    w.WriteAll(s, f);
  }

  /** Reading a file to its end. */
  method Decipher(f: File, pvec: Bytes, enc: Bytes -> Bytes, dec: Bytes -> Bytes) returns (t: Bytes, failed: bool)
    requires |pvec| == N && Inverse(enc, dec) && f.pos == 0
    modifies f`pos
    ensures Sized(dec) && Readable(f.data, dec) == (t, !failed) && f.data == old(f.data)
  {
    hide Inverse, Sized;
    SizedBoth(enc, dec);
    var r := new Stream(enc, dec, pvec);
    assert f.data[..0] == [] && r.desBuf[0..0] == [];
    t := r.ReadAll(f);
    failed := r.failed;
  }

  lemma SizedBoth(enc: Bytes -> Bytes, dec: Bytes -> Bytes)
    requires Inverse(enc, dec)
    ensures Sized(enc) && Sized(dec)
  {
  }

  /** A text written to a file and read back from it, each from a zero vector, whatever the padding. */
  method ThereAndBack(s: Bytes, pvec: Bytes, other: Bytes, enc: Bytes -> Bytes, dec: Bytes -> Bytes)
      returns (t: Bytes, failed: bool, size: nat)
    requires |pvec| == N && |other| == N && Inverse(enc, dec)
    ensures t == s && !failed && size == |s| + 8 - |s| % 8
  {
    hide Inverse, Readable, Ciphertext;
    SizedBoth(enc, dec);
    var f := Encipher(s, pvec, enc, dec);
    RoundTrip(s, pvec, enc, dec);
    size := |f.data|;
    var g := new File(f.data);
    t, failed := Decipher(g, other, enc, dec);
  }
}
