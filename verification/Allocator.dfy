/** The shell's allocator as it runs, over memory got from the system in one growing piece: a free list
    and a count for each bucket, and headers in the memory itself. */
module Allocator {
  import opened Basics
  import opened Buckets

  /** The first word of each block, lowest byte first: the next free block, while it is free; while it
      is in use, the magic number in the first byte and the bucket in the second. */
  type Memory = map<nat, nat>

  const NULL: nat := 0
  const MAGIC: nat := 0xfd

  predicate Marked(w: nat) {
    w % 0x100 == MAGIC
  }

  function IndexOf(w: nat): nat {
    w / 0x100 % 0x100
  }

  /** Setting the first two bytes. */
  function Stamp(w: nat, index: nat): nat {
    w / 0x10000 * 0x10000 + index * 0x100 + MAGIC
  }

  lemma Stamped(w: nat, index: nat)
    requires index < NBUCKETS
    ensures Marked(Stamp(w, index)) && IndexOf(Stamp(w, index)) == index
  {
    var k := w / 0x10000;
    assert Stamp(w, index) == 0x100 * (0x100 * k + index) + MAGIC;
    assert Stamp(w, index) / 0x100 == 0x100 * k + index;
  }

  /** The first byte of an address of a block is never the magic number: so a block that is free is not
      taken for one in use. */
  lemma LinkUnmarked(a: nat)
    requires a % 8 == 0
    ensures !Marked(a)
  {
  }

  /** What the header at an address holds; new memory is zero. */
  function At(mem: Memory, a: nat): nat {
    if a in mem then mem[a] else NULL
  }

  /** The free list from an address. */
  ghost predicate Listed(mem: Memory, from: nat, l: seq<nat>)
    decreases |l|
  {
    if l == [] then from == NULL
    else from == l[0] && from != NULL && Listed(mem, At(mem, from), l[1..])
  }

  lemma {:induction false} ListedFrame(mem: Memory, mem1: Memory, from: nat, l: seq<nat>)
    requires Listed(mem, from, l) && forall a :: a in l ==> At(mem1, a) == At(mem, a)
    ensures Listed(mem1, from, l)
    decreases |l|
  {
    if l != [] { ListedFrame(mem, mem1, At(mem, from), l[1..]); }
  }

  /** Blocks, each with its bucket, do not overlap. */
  ghost predicate Apart(blocks: map<nat, nat>, a: nat, b: nat)
    requires a in blocks && b in blocks
  {
    a + Size(blocks[a]) <= b || b + Size(blocks[b]) <= a
  }

  ghost predicate Within(blocks: map<nat, nat>, a: nat, membot: nat, brk: nat)
    requires a in blocks
  {
    blocks[a] < NBUCKETS && a % 8 == 0 && 0 < membot <= a && a + Size(blocks[a]) <= brk
  }

  /** Pairwise apart, aligned, and inside memory got from the system. */
  ghost predicate Laid(blocks: map<nat, nat>, membot: nat, brk: nat) {
    && (forall a, b :: a in blocks && b in blocks && a != b ==> Apart(blocks, a, b))
    && (forall a :: a in blocks ==> Within(blocks, a, membot, brk))
  }

  ghost predicate Once(l: seq<nat>) {
    forall i, j :: 0 <= i < j < |l| ==> l[i] != l[j]
  }

  /** The blocks of a bucket: in its free list, once, or in use and marked so. */
  ghost predicate Kept(mem: Memory, blocks: map<nat, nat>, bucket: nat, head: nat, free: seq<nat>, live: set<nat>) {
    && Listed(mem, head, free) && Once(free)
    && (forall a :: a in free ==> a in blocks && blocks[a] == bucket && a !in live)
    && (forall a :: a in live ==> a in blocks && blocks[a] == bucket && Marked(At(mem, a)) && IndexOf(At(mem, a)) == bucket)
    && (forall a :: a in blocks && blocks[a] == bucket ==> a in free || a in live)
  }

  // ---- Taking a block and giving it back ----

  lemma KeptTake(mem: Memory, blocks: map<nat, nat>, bucket: nat, free: seq<nat>, live: set<nat>)
    requires free != [] && Kept(mem, blocks, bucket, free[0], free, live) && bucket < NBUCKETS
    ensures Kept(mem[free[0] := Stamp(At(mem, free[0]), bucket)], blocks, bucket, At(mem, free[0]), free[1..], live + {free[0]})
  {
    var mem1 := mem[free[0] := Stamp(At(mem, free[0]), bucket)];
    hide Stamp, Marked, IndexOf;
    Stamped(At(mem, free[0]), bucket);
    assert free[0] !in free[1..];
    ListedFrame(mem, mem1, At(mem, free[0]), free[1..]);
    assert forall a :: a in free ==> a == free[0] || a in free[1..];
  }

  lemma KeptGive(mem: Memory, blocks: map<nat, nat>, bucket: nat, head: nat, free: seq<nat>, live: set<nat>, a: nat)
    requires Kept(mem, blocks, bucket, head, free, live) && a in live && a != NULL
    ensures Kept(mem[a := head], blocks, bucket, a, [a] + free, live - {a})
  {
    var mem1 := mem[a := head];
    ListedFrame(mem, mem1, head, free);
    assert ([a] + free)[1..] == free;
  }

  /** The other buckets do not notice. */
  lemma KeptElsewhere(mem: Memory, mem1: Memory, blocks: map<nat, nat>, bucket: nat, head: nat, free: seq<nat>, live: set<nat>)
    requires Kept(mem, blocks, bucket, head, free, live)
    requires forall a :: a in blocks && blocks[a] == bucket ==> At(mem1, a) == At(mem, a)
    ensures Kept(mem1, blocks, bucket, head, free, live)
  {
    ListedFrame(mem, mem1, head, free);
  }

  // ---- More core ----

  ghost function More(blocks: map<nat, nat>, bucket: nat, news: seq<nat>): map<nat, nat> {
    map a | a in blocks.Keys + (set x | x in news) :: if a in news then bucket else blocks[a]
  }

  /** New blocks of a bucket above all others keep out of the way of them and of each other. */
  lemma LaidMore(blocks: map<nat, nat>, membot: nat, brk: nat, bucket: nat, op: nat, n: nat)
    requires Laid(blocks, membot, brk) && 0 < membot <= op && brk <= op && op % 8 == 0 && bucket < NBUCKETS
    ensures Laid(More(blocks, bucket, Carved(op, Size(bucket), n)), membot, op + n * Size(bucket))
    ensures forall a :: a in Carved(op, Size(bucket), n) ==> a !in blocks
  {
    hide Laid, Within, More;
    var siz, news := Size(bucket), Carved(op, Size(bucket), n);
    Product(n, siz);
    forall a | a in news ensures NewAt(a, siz, op, op + n * siz) {
      var i :| 0 <= i < n && news[i] == a;
      Aligned(op, i, siz);
      Spaced(i, n, siz);
      Product(i, siz);
    }
    forall a, b | a in news && b in news && a != b ensures a + siz <= b || b + siz <= a {
      NewsApart(op, siz, n, a, b);
    }
    LaidAbove(blocks, membot, brk, bucket, op, op + n * siz, news);
  }

  ghost predicate NewAt(a: nat, siz: nat, op: nat, end: nat) {
    a % 8 == 0 && op <= a && a + siz <= end
  }

  lemma LaidAbove(blocks: map<nat, nat>, membot: nat, brk: nat, bucket: nat, op: nat, end: nat, news: seq<nat>)
    requires Laid(blocks, membot, brk) && 0 < membot <= op && brk <= op <= end && bucket < NBUCKETS
    requires forall a :: a in news ==> NewAt(a, Size(bucket), op, end)
    requires forall a, b :: a in news && b in news && a != b ==> a + Size(bucket) <= b || b + Size(bucket) <= a
    ensures Laid(More(blocks, bucket, news), membot, end)
    ensures forall a :: a in news ==> a !in blocks
  {
    hide Size;
    var blocks1 := More(blocks, bucket, news);
    forall a | a in blocks ensures Within(blocks, a, membot, brk) && a + Size(blocks[a]) <= op && a !in news {
      assert a in news ==> NewAt(a, Size(bucket), op, end);
    }
    forall a, b | a in blocks1 && b in blocks1 && a != b ensures Apart(blocks1, a, b) {
      if a !in news && b !in news {
        assert Apart(blocks, a, b);
      } else {
        assert a in news ==> NewAt(a, Size(bucket), op, end);
        assert b in news ==> NewAt(b, Size(bucket), op, end);
      }
    }
    forall a | a in blocks1 ensures Within(blocks1, a, membot, end) {
      assert if a in news then NewAt(a, Size(bucket), op, end) else Within(blocks, a, membot, brk);
    }
  }

  lemma NewsApart(op: nat, siz: nat, n: nat, a: nat, b: nat)
    requires a in Carved(op, siz, n) && b in Carved(op, siz, n) && a != b
    ensures a + siz <= b || b + siz <= a
  {
    var news := Carved(op, siz, n);
    var i :| 0 <= i < n && news[i] == a;
    var j :| 0 <= j < n && news[j] == b;
    if i < j { Spaced(i, j, siz); } else { Spaced(j, i, siz); }
  }

  /** A row of new blocks, linked, is a free list. */
  lemma {:induction false} CarvedListed(mem: Memory, op: nat, siz: nat, n: nat)
    requires n > 0 && op > 0 && siz > 0
    requires forall i :: 0 <= i < n - 1 ==> At(mem, Carved(op, siz, n)[i]) == Carved(op, siz, n)[i + 1]
    requires At(mem, Carved(op, siz, n)[n - 1]) == NULL
    ensures Listed(mem, op, Carved(op, siz, n))
    decreases n
  {
    var l := Carved(op, siz, n);
    assert l[0] == op + 0 * siz;
    if n == 1 {
      assert l[1..] == [];
    } else {
      var l1 := Carved(op + siz, siz, n - 1);
      forall i | 0 <= i < n - 1 ensures l1[i] == l[i + 1] { Next(op, siz, i); }
      assert l[1..] == l1;
      assert l[0 + 1] == op + siz by { Next(op, siz, 0); }
      assert At(mem, l[0]) == l[0 + 1];
      CarvedListed(mem, op + siz, siz, n - 1);
    }
  }

  lemma Next(op: nat, siz: nat, i: nat)
    ensures op + (i + 1) * siz == op + i * siz + siz == op + siz + i * siz
  {
  }

  lemma CarvedOnce(op: nat, siz: nat, n: nat)
    requires siz > 0
    ensures Once(Carved(op, siz, n))
  {
    forall i, j | 0 <= i < j < n ensures Carved(op, siz, n)[i] != Carved(op, siz, n)[j] { Spaced(i, j, siz); }
  }

  lemma {:induction false} Pow2Sum(a: nat, b: nat)
    ensures Pow2(a + b) == Pow2(a) * Pow2(b)
  {
    if a > 0 { Pow2Sum(a - 1, b); }
  }

  /** The blocks of a bucket fill the piece of memory exactly. */
  lemma BlocksFill(rnu: nat, bucket: nat)
    requires rnu >= bucket + 3
    ensures Pow2(rnu - (bucket + 3)) * Size(bucket) == Pow2(rnu)
  {
    Pow2Sum(rnu - (bucket + 3), bucket + 3);
    Pow2Sum(3, bucket);
    assert Pow2(3) == 8 by { assert Pow2(1) == 2 && Pow2(2) == 4; }
  }

  lemma LaidLonger(blocks: map<nat, nat>, membot: nat, brk: nat, brk1: nat)
    requires Laid(blocks, membot, brk) && brk <= brk1
    ensures Laid(blocks, membot, brk1)
  {
    forall a | a in blocks ensures Within(blocks, a, membot, brk1) { assert Within(blocks, a, membot, brk); }
  }

  lemma LaidBelow(blocks: map<nat, nat>, membot: nat, brk: nat)
    requires Laid(blocks, membot, brk)
    ensures forall a :: a in blocks ==> a < brk
  {
    forall a | a in blocks ensures a < brk { assert Within(blocks, a, membot, brk); }
  }

  lemma EmptyList(mem: Memory, blocks: map<nat, nat>, bucket: nat, l: seq<nat>, live: set<nat>)
    requires Kept(mem, blocks, bucket, NULL, l, live)
    ensures l == []
  {
  }

  /** A bucket that gets no new blocks. */
  lemma KeptOther(mem: Memory, mem1: Memory, blocks: map<nat, nat>, b: nat, head: nat, l: seq<nat>, live: set<nat>,
                  bucket: nat, news: seq<nat>, op: nat)
    requires Kept(mem, blocks, b, head, l, live) && b != bucket
    requires forall a :: a in news ==> a !in blocks
    requires forall a :: a in blocks ==> a < op
    requires forall a: nat :: a < op ==> At(mem1, a) == At(mem, a)
    ensures Kept(mem1, More(blocks, bucket, news), b, head, l, live)
  {
    ListedFrame(mem, mem1, head, l);
  }

  lemma KeptNew(mem: Memory, mem1: Memory, blocks: map<nat, nat>, bucket: nat, live: set<nat>, news: seq<nat>, op: nat)
    requires Kept(mem, blocks, bucket, NULL, [], live) && Listed(mem1, op, news) && Once(news)
    requires forall a :: a in news ==> a !in blocks
    requires forall a :: a in blocks ==> a < op
    requires forall a: nat :: a < op ==> At(mem1, a) == At(mem, a)
    ensures Kept(mem1, More(blocks, bucket, news), bucket, op, news, live)
  {
  }

  ghost function LiveBlocks(live: seq<set<nat>>): set<nat> {
    set b, a | 0 <= b < |live| && a in live[b] :: a
  }

  ghost function Handed(blocks: set<nat>): set<nat> {
    set a | a in blocks :: a + HEADER
  }

  lemma HandedLess(blocks: set<nat>, a: nat)
    ensures Handed(blocks - {a}) == Handed(blocks) - {a + HEADER}
  {
    forall p | p in Handed(blocks) - {a + HEADER} ensures p in Handed(blocks - {a}) {
      assert p - HEADER in blocks - {a};
    }
  }

  /** A request for memory, or the release of what the k-th request that was served got. */
  datatype Request = New(nbytes: nat) | Release(k: nat)

  predicate Servable(r: Request) {
    r.New? && HEADER + r.nbytes <= Size(NBUCKETS - 1)
  }

  function Served(rs: seq<Request>): nat {
    if rs == [] then 0 else Served(rs[..|rs| - 1]) + if Servable(rs[|rs| - 1]) then 1 else 0
  }

  /** What a client holds that made these requests and got these addresses: what it got, but for what
      it released since. */
  ghost function Outstanding(rs: seq<Request>, got: seq<nat>): set<nat>
    requires Served(rs) <= |got|
  {
    if rs == [] then {}
    else
      var before, last, n := Outstanding(rs[..|rs| - 1], got), rs[|rs| - 1], Served(rs[..|rs| - 1]);
      if Servable(last) then before + {got[n]}
      else if last.Release? && last.k < n then before - {got[last.k]}
      else before
  }

  lemma {:induction false} OutstandingMore(rs: seq<Request>, got: seq<nat>, p: nat)
    requires Served(rs) <= |got|
    ensures Outstanding(rs, got + [p]) == Outstanding(rs, got)
  {
    if rs != [] { OutstandingMore(rs[..|rs| - 1], got, p); }
  }

  class Heap {
    var mem: Memory
    const nextf: array<nat>
    const nmalloc: array<nat>
    var brk: nat           // where the memory got from the system ends
    var membot: nat
    var memtop: nat

    ghost var blocks: map<nat, nat>    // all blocks ever carved out, with their buckets
    ghost var free: seq<seq<nat>>
    ghost var live: seq<set<nat>>
    ghost var carved: seq<nat>         // how many for each bucket

    /** Nothing allocated yet; the system's break is somewhere. */
    constructor (brk: nat)
      requires brk > 0
      ensures Valid() && fresh(nextf) && fresh(nmalloc) && blocks == map[]
    {
      mem, this.brk, membot, memtop := map[], brk, 0, 0;
      nextf, nmalloc := new nat[NBUCKETS](i => 0), new nat[NBUCKETS](i => 0);
      blocks := map[];
      free := seq(NBUCKETS, i => []);
      live := seq(NBUCKETS, i => {});
      carved := seq(NBUCKETS, i => 0);
    }

    ghost predicate Sized()
      reads `free, `live, `carved
    {
      && nextf.Length == nmalloc.Length == NBUCKETS && nextf != nmalloc
      && |free| == |live| == |carved| == NBUCKETS
    }

    ghost predicate BucketOk(b: nat)
      requires Sized() && b < NBUCKETS
      reads `mem, `blocks, `free, `live, `carved, nextf, nmalloc
    {
      && Kept(mem, blocks, b, nextf[b], free[b], live[b])
      && nmalloc[b] == |live[b]| && |free[b]| + |live[b]| == carved[b]
    }

    ghost predicate Bounded()
      reads `mem, `brk, `membot, `memtop, `blocks
    {
      && brk > 0 && Laid(blocks, membot, brk) && (forall a :: a in mem ==> a < brk)
      && (if membot == NULL then memtop == NULL && blocks == map[] else membot <= memtop == brk)
    }

    ghost predicate Valid()
      reads this, nextf, nmalloc
    {
      Sized() && Bounded() && forall b :: 0 <= b < NBUCKETS ==> BucketOk(b)
    }

    /** The addresses handed out and not given back. */
    ghost function Held(): set<nat>
      reads `live
    {
      Handed(LiveBlocks(live))
    }

    /** sbrk, which gives new memory, above all it gave before. */
    method Sbrk(n: nat) returns (old_: nat)
      modifies `brk
      ensures old_ == old(brk) && brk == old(brk) + n
    {
      old_ := brk;
      brk := brk + n;
    }

    /** The start of morecore: the break goes up to a page boundary. */
    method PageAlign()
      requires Bounded()
      modifies `brk, `membot, `memtop
      ensures Bounded() && brk >= old(brk) && brk % 1024 == 0 && membot != NULL
    {
      hide Within, Apart;
      var op := brk;
      memtop := op;
      if membot == NULL {
        membot := memtop;
      }
      if op % 1024 != 0 {
        memtop := Sbrk(1024 - op % 1024);
        memtop := memtop + (1024 - op % 1024);
      }
      LaidLonger(blocks, membot, old(brk), brk);
    }

    /** The loop of morecore: each new block linked to the next; the last is zero as it is. */
    method LinkUp(op0: nat, siz: nat, nblks0: nat)
      requires nblks0 > 0 && siz > 0 && forall a :: a in mem ==> a < op0
      modifies `mem
      ensures forall a: nat :: a < op0 ==> At(mem, a) == At(old(mem), a)
      ensures forall a :: a in mem ==> a < op0 + nblks0 * siz
      ensures var l := Carved(op0, siz, nblks0);
        && (forall i :: 0 <= i < nblks0 - 1 ==> At(mem, l[i]) == l[i + 1])
        && At(mem, l[nblks0 - 1]) == NULL
    {
      ghost var l := Carved(op0, siz, nblks0);
      ghost var k: nat := 0;
      var op, nblks := op0, nblks0 - 1;
      assert l[0] == op0 + 0 * siz;
      while nblks > 0
        invariant k + nblks == nblks0 - 1 && op == l[k] && op >= op0
        invariant forall a: nat :: a < op0 ==> At(mem, a) == At(old(mem), a)
        invariant forall a :: a in mem ==> a < op
        invariant forall i :: 0 <= i < k ==> At(mem, l[i]) == l[i + 1]
      {
        Next(op0, siz, k);
        forall i | 0 <= i < k ensures l[i] < l[k] { Spaced(i, k, siz); }
        mem := mem[op := op + siz];
        op := op + siz;
        k, nblks := k + 1, nblks - 1;
      }
      Spaced(k, nblks0, siz);
    }

    /** The new blocks, as blocks. */
    ghost method Carve(bucket: nat, op: nat, n: nat, mem0: Memory, brk0: nat)
      requires Sized() && bucket < NBUCKETS && n > 0 && nextf[bucket] == op && brk == op + n * Size(bucket) && memtop == brk
      requires 0 < membot <= op && op % 8 == 0 && brk0 <= op && Laid(blocks, membot, brk0)
      requires forall a: nat :: a < op ==> At(mem, a) == At(mem0, a)
      requires forall a :: a in mem ==> a < brk
      requires Listed(mem, op, Carved(op, Size(bucket), n))
      requires forall b :: 0 <= b < NBUCKETS ==> Counted(b)
      requires forall b :: 0 <= b < NBUCKETS && b != bucket ==> Kept(mem0, blocks, b, nextf[b], free[b], live[b])
      requires free[bucket] == [] && Kept(mem0, blocks, bucket, NULL, [], live[bucket])
      modifies `blocks, `free, `carved
      ensures Valid() && blocks == More(old(blocks), bucket, Carved(op, Size(bucket), n))
      ensures free == old(free)[bucket := Carved(op, Size(bucket), n)]
      ensures forall a :: a in old(blocks) ==> a in blocks && blocks[a] == old(blocks)[a]
    {
      hide Laid, Kept, Listed, Size;
      ghost var news := Carved(op, Size(bucket), n);
      LaidMore(blocks, membot, brk0, bucket, op, n);
      LaidBelow(blocks, membot, brk0);
      CarvedOnce(op, Size(bucket), n);
      forall b | 0 <= b < NBUCKETS && b != bucket
        ensures Kept(mem, More(blocks, bucket, news), b, nextf[b], free[b], live[b])
      {
        KeptOther(mem0, mem, blocks, b, nextf[b], free[b], live[b], bucket, news, op);
      }
      KeptNew(mem0, mem, blocks, bucket, live[bucket], news, op);
      blocks := More(blocks, bucket, news);
      free := free[bucket := news];
      carved := carved[bucket := carved[bucket] + n];
      forall b | 0 <= b < NBUCKETS ensures BucketOk(b) { assert old(Counted(b)); }
    }

    ghost predicate Counted(b: nat)
      requires Sized() && b < NBUCKETS
      reads `free, `live, `carved, nmalloc
    {
      nmalloc[b] == |live[b]| && |free[b]| + |live[b]| == carved[b]
    }

    /** morecore: a piece of memory carved into blocks for a bucket that has none left. */
    method Morecore(bucket: nat)
      requires Valid() && bucket < NBUCKETS && nextf[bucket] == NULL
      modifies this, nextf
      ensures Valid() && nextf[bucket] != NULL && live == old(live)
      ensures forall a :: a in old(blocks) ==> a in blocks && blocks[a] == old(blocks)[a]
      ensures forall a :: a in blocks && a !in old(blocks) ==> blocks[a] == bucket
      ensures forall b :: 0 <= b < NBUCKETS && b != bucket ==> free[b] == old(free)[b]
    {
      hide Laid, Kept, Listed, Size, Pow2, BucketOk, Counted;
      ghost var mem0 := mem;
      AllKept();
      EmptyList(mem, blocks, bucket, free[bucket], live[bucket]);
      PageAlign();
      var rnu := if bucket <= 8 then 11 else bucket + 3;
      var nblks := Pow2(rnu - (bucket + 3));
      BlocksFill(rnu, bucket);
      var op := Sbrk(Pow2(rnu));
      memtop := op + Pow2(rnu);
      nextf[bucket] := op;
      LinkUp(op, Size(bucket), nblks);
      CarvedListed(mem, op, Size(bucket), nblks);
      Carve(bucket, op, nblks, mem0, op);
    }

    lemma AllKept()
      requires Valid()
      ensures forall b :: 0 <= b < NBUCKETS ==> Counted(b) && Kept(mem, blocks, b, nextf[b], free[b], live[b])
    {
      hide Laid, Kept;
      forall b | 0 <= b < NBUCKETS ensures Counted(b) && Kept(mem, blocks, b, nextf[b], free[b], live[b]) {
        assert BucketOk(b);
      }
    }

    /** malloc: a block of the least bucket that holds the header and the request; the one given back
        last, if there is one, and then nothing else changes. */
    method Malloc(nbytes: nat) returns (p: nat)
      requires Valid() && HEADER + nbytes <= Size(NBUCKETS - 1)
      modifies this, nextf, nmalloc
      ensures Valid() && p >= HEADER && p !in old(Held()) && Held() == old(Held()) + {p}
      ensures var a := p - HEADER;
        && a in blocks && blocks[a] < NBUCKETS
        && (forall b: nat :: HEADER + nbytes <= Size(b) <==> blocks[a] <= b)
        && live == old(live)[blocks[a] := old(live)[blocks[a]] + {a}]
        && (forall b :: 0 <= b < NBUCKETS && b != blocks[a] ==> free[b] == old(free)[b])
        && (old(free)[blocks[a]] != [] ==> [a] + free[blocks[a]] == old(free)[blocks[a]] && blocks == old(blocks))
      ensures forall a :: a in old(blocks) ==> a in blocks && blocks[a] == old(blocks)[a]
      ensures forall a :: a in blocks && a !in old(blocks) ==> blocks[a] == blocks[p - HEADER]
    {
      hide Laid, Kept, Listed, Size, Align;
      var bucket := Bucket(Align(HEADER + nbytes));
      forall b: nat ensures HEADER + nbytes <= Size(b) <==> bucket <= b {
        LeastBucket(Align(HEADER + nbytes), bucket, b);
        Rounded(nbytes, b);
      }
      Empty(bucket);
      if nextf[bucket] == NULL {
        Morecore(bucket);
      }
      p := Take(bucket);
      NewlyLive(old(live), bucket, p);
      p := p + HEADER;
    }

    lemma Empty(b: nat)
      requires Valid() && b < NBUCKETS
      ensures nextf[b] == NULL <==> free[b] == []
    {
      assert BucketOk(b);
    }

    /** The first block of a free list, put to use. */
    method Take(bucket: nat) returns (p: nat)
      requires Valid() && bucket < NBUCKETS && nextf[bucket] != NULL
      modifies this, nextf, nmalloc
      ensures Valid() && p in blocks && blocks[p] == bucket && blocks == old(blocks)
      ensures live == old(live)[bucket := old(live)[bucket] + {p}] && p !in old(live)[bucket]
      ensures old(free)[bucket] == [p] + free[bucket] && free == old(free)[bucket := free[bucket]]
      ensures forall b :: 0 <= b < NBUCKETS ==> p !in old(live)[b]
    {
      hide Laid, Listed, Size, Stamp, Marked, IndexOf;
      assert BucketOk(bucket);
      p := nextf[bucket];
      FirstOf(mem, p, free[bucket]);
      forall b | 0 <= b < NBUCKETS ensures p !in live[b] { assert BucketOk(b); }
      KeptTake(mem, blocks, bucket, free[bucket], live[bucket]);
      Block(p);
      nextf[bucket] := At(mem, p);
      mem := mem[p := Stamp(At(mem, p), bucket)];
      nmalloc[bucket] := nmalloc[bucket] + 1;
      free := free[bucket := free[bucket][1..]];
      live := live[bucket := live[bucket] + {p}];
      forall b | 0 <= b < NBUCKETS ensures BucketOk(b) {
        assert old(BucketOk(b));
        if b != bucket { KeptElsewhere(old(mem), mem, blocks, b, nextf[b], free[b], live[b]); }
      }
    }

    lemma Block(p: nat)
      requires Bounded() && p in blocks
      ensures p % 8 == 0 && 0 < membot <= p && p + Size(blocks[p]) <= brk && p < brk && blocks[p] < NBUCKETS
    {
      assert Within(blocks, p, membot, brk);
    }

    static lemma FirstOf(mem: Memory, p: nat, l: seq<nat>)
      requires Listed(mem, p, l) && p != NULL
      ensures l != [] && l[0] == p
    {
    }

    static lemma NewlyLive(live: seq<set<nat>>, bucket: nat, p: nat)
      requires bucket < |live| && forall b :: 0 <= b < |live| ==> p !in live[b]
      ensures p !in LiveBlocks(live) && LiveBlocks(live[bucket := live[bucket] + {p}]) == LiveBlocks(live) + {p}
    {
      var live1 := live[bucket := live[bucket] + {p}];
      forall a | a in LiveBlocks(live) + {p} ensures a in LiveBlocks(live1) {
        if a != p {
          var b :| 0 <= b < |live| && a in live[b];
          assert a in live1[b];
        } else {
          assert a in live1[bucket];
        }
      }
    }

    static lemma NoLongerLive(live: seq<set<nat>>, bucket: nat, p: nat)
      requires bucket < |live| && forall b :: 0 <= b < |live| && b != bucket ==> p !in live[b]
      ensures LiveBlocks(live[bucket := live[bucket] - {p}]) == LiveBlocks(live) - {p}
    {
      var live1 := live[bucket := live[bucket] - {p}];
      forall a | a in LiveBlocks(live) - {p} ensures a in LiveBlocks(live1) {
        var b :| 0 <= b < |live| && a in live[b];
        assert a in live1[b];
      }
    }

    /** free: a block in use goes to the front of its bucket's list. What is no address of a block, or
        of one that is free already, is refused. */
    method Free(cp: nat)
      requires Valid() && (cp != NULL && membot <= cp <= memtop ==> cp >= HEADER && cp - HEADER in blocks)
      modifies this, nextf, nmalloc
      ensures Valid() && blocks == old(blocks)
      ensures if cp >= HEADER && cp - HEADER in LiveBlocks(old(live)) then
          && cp - HEADER in blocks && blocks[cp - HEADER] < NBUCKETS
          && var b := blocks[cp - HEADER];
             live == old(live)[b := old(live)[b] - {cp - HEADER}] && free == old(free)[b := [cp - HEADER] + old(free)[b]]
        else live == old(live) && free == old(free) && mem == old(mem)
      ensures Held() == old(Held()) - {cp}
    {
      hide Laid, Listed, Size, Stamp, Marked, IndexOf;
      LiveMeans();
      HeldMeans(cp);
      if cp == NULL {
        return;
      }
      if memtop == NULL || membot == NULL || cp > memtop || cp < membot {
        return;
      }
      var op := cp - HEADER;
      Block(op);
      HeaderOf(op);
      if !Marked(At(mem, op)) || IndexOf(At(mem, op)) >= NBUCKETS {
        return;
      }
      var size := IndexOf(At(mem, op));
      OnlyIn(op);
      NoLongerLive(live, blocks[op], op);
      Give(op, size);
      HandedLess(LiveBlocks(old(live)), op);
    }

    /** Live blocks are blocks, between the bottom and the top of memory. */
    lemma LiveMeans()
      requires Valid()
      ensures forall a :: a in LiveBlocks(live) ==>
        a in blocks && membot != NULL && membot <= a + HEADER <= memtop && a in live[blocks[a]] && blocks[a] < NBUCKETS
    {
      forall a | a in LiveBlocks(live)
        ensures a in blocks && blocks[a] < NBUCKETS && a in live[blocks[a]] && membot != NULL && membot <= a + HEADER <= memtop
      {
        var b :| 0 <= b < |live| && a in live[b];
        assert BucketOk(b);
        Block(a);
      }
    }

    lemma HeldMeans(cp: nat)
      ensures cp in Held() <==> cp >= HEADER && cp - HEADER in LiveBlocks(live)
    {
      if cp >= HEADER && cp - HEADER in LiveBlocks(live) { assert (cp - HEADER) + HEADER == cp; }
    }

    /** A block is in use in its own bucket only. */
    lemma OnlyIn(a: nat)
      requires Valid() && a in blocks
      ensures forall b :: 0 <= b < NBUCKETS && b != blocks[a] ==> a !in live[b]
    {
      forall b | 0 <= b < NBUCKETS && b != blocks[a] ensures a !in live[b] { assert BucketOk(b); }
    }

    /** The header of a block says whether it is in use, and of which bucket it is. */
    lemma HeaderOf(a: nat)
      requires Valid() && a in blocks
      ensures blocks[a] < NBUCKETS && (Marked(At(mem, a)) <==> a in live[blocks[a]])
      ensures Marked(At(mem, a)) ==> IndexOf(At(mem, a)) == blocks[a]
      ensures a in LiveBlocks(live) <==> a in live[blocks[a]]
    {
      Block(a);
      assert BucketOk(blocks[a]);
      if a in free[blocks[a]] {
        forall x | x in free[blocks[a]] ensures x % 8 == 0 { Block(x); }
        FreeLink(mem, nextf[blocks[a]], free[blocks[a]], a);
      }
      if a in LiveBlocks(live) {
        var b :| 0 <= b < |live| && a in live[b];
        assert BucketOk(b);
      }
    }

    static lemma {:induction false} FreeLink(mem: Memory, from: nat, l: seq<nat>, a: nat)
      requires Listed(mem, from, l) && a in l && forall x :: x in l ==> x % 8 == 0
      ensures !Marked(At(mem, a))
      decreases |l|
    {
      if a != l[0] {
        assert forall x :: x in l[1..] ==> x in l;
        FreeLink(mem, At(mem, from), l[1..], a);
      } else {
        assert l[1..] != [] ==> l[1] in l;
        LinkUnmarked(At(mem, a));
      }
    }

    method Give(op: nat, size: nat)
      requires Valid() && size < NBUCKETS && op in live[size]
      modifies this, nextf, nmalloc
      ensures Valid() && blocks == old(blocks) && op in blocks && blocks[op] == size
      ensures live == old(live)[size := old(live)[size] - {op}] && free == old(free)[size := [op] + old(free)[size]]
    {
      hide Laid, Listed, Size, Stamp, Marked, IndexOf;
      assert BucketOk(size);
      Block(op);
      KeptGive(mem, blocks, size, nextf[size], free[size], live[size], op);
      mem := mem[op := nextf[size]];
      nextf[size] := op;
      nmalloc[size] := nmalloc[size] - 1;
      free := free[size := [op] + free[size]];
      live := live[size := live[size] - {op}];
      forall b | 0 <= b < NBUCKETS ensures BucketOk(b) {
        assert old(BucketOk(b));
        if b != size { KeptElsewhere(old(mem), mem, blocks, b, nextf[b], free[b], live[b]); }
      }
    }

    /** What holds of the blocks in every state. */
    lemma InEveryState(a: nat, b: nat)
      requires Valid() && a in blocks && b in blocks && a != b
      ensures a + Size(blocks[a]) <= b || b + Size(blocks[b]) <= a
      ensures a % 8 == 0 && membot <= a && a + Size(blocks[a]) <= brk
      ensures blocks[a] < NBUCKETS && (a in free[blocks[a]]) != (a in live[blocks[a]])
      ensures nmalloc[blocks[a]] == |live[blocks[a]]| && |free[blocks[a]]| + |live[blocks[a]]| == carved[blocks[a]]
    {
      assert Apart(blocks, a, b);
      Block(a);
      assert BucketOk(blocks[a]);
    }

    /** Any run of requests and releases, of blocks got before, perhaps more than once: what is in use
        at the end is what the client still holds. */
    method Run(requests: seq<Request>) returns (got: seq<nat>)
      requires Valid() && blocks == map[]
      modifies this, nextf, nmalloc
      ensures Valid() && |got| == Served(requests) && Held() == Outstanding(requests, got)
    {
      hide Valid, Size, LiveBlocks, Outstanding;
      got := [];
      NoneHeld();
      var i := 0;
      assert requests[..0] == [];
      while i < |requests|
        invariant Valid() && i <= |requests| && |got| == Served(requests[..i])
        invariant Held() == Outstanding(requests[..i], got)
        invariant forall k :: 0 <= k < |got| ==> got[k] >= HEADER && got[k] - HEADER in blocks
      {
        ghost var got0 := got;
        match requests[i] {
          case New(nbytes) =>
            if HEADER + nbytes <= Size(NBUCKETS - 1) {
              var p := Malloc(nbytes);
              got := got + [p];
              OutstandingMore(requests[..i], got0, p);
            }
          case Release(k) =>
            if k < |got| {
              Free(got[k]);
            }
        }
        assert requests[..i + 1][..i] == requests[..i];
        OutstandingNext(requests[..i + 1], got);
        i := i + 1;
      }
      assert requests[..i] == requests;
    }

    lemma NoneHeld()
      requires Valid() && blocks == map[]
      ensures Held() == {} == Outstanding([], [])
    {
      LiveMeans();
    }

    static lemma OutstandingNext(rs: seq<Request>, got: seq<nat>)
      requires rs != [] && Served(rs) <= |got|
      ensures var init, last := rs[..|rs| - 1], rs[|rs| - 1];
        Outstanding(rs, got) ==
          if Servable(last) then Outstanding(init, got) + {got[Served(init)]}
          else if last.Release? && last.k < Served(init) then Outstanding(init, got) - {got[last.k]}
          else Outstanding(init, got)
    {
    }
  }
}
