/** The allocator of the compiler: requests are served from the top of a row of growing chunks, and
    all of them are freed at once.  Addresses are offsets into a chunk. */
module ChunkPool {
  import opened Common
  import opened Machine

  const NCHUNKS: nat := 16
  const CHUNK0SIZE: nat := 1024
  const UINT: nat := 0x1_0000_0000

  /** sizeof(long), on the two kinds of machines that the libraries are built for. */
  type LongSize = w: nat | w == 4 || w == 8 witness 8

  /** n rounded up to a multiple of the size of a long, in an unsigned int. */
  function Rounded(n: nat, w: LongSize): (r: nat) { (n + w - 1) / w * w % UINT }

  /** Except for the last few requests of an unsigned int, which wrap around to nothing. */
  lemma RoundedCovers(n: nat, w: LongSize)
    requires n < UINT
    ensures Rounded(n, w) % w == 0
    ensures n <= Rounded(n, w) <==> n <= UINT - w
    ensures n <= UINT - w ==> Rounded(n, w) < n + w
    ensures n > UINT - w ==> Rounded(n, w) == 0
  {
    if w == 4 { CoversBy(n, 4, (n + 3) / 4); } else { CoversBy(n, 8, (n + 7) / 8); }
  }

  lemma CoversBy(n: nat, w: nat, q: nat)
    requires n < UINT && (w == 4 || w == 8) && q * w <= n + w - 1 < q * w + w
    ensures var r := q * w % UINT;
      r % w == 0 && if n <= UINT - w then n <= r < n + w else r == 0
  {
    if n <= UINT - w { assert q * w < UINT; } else { assert q * w == UINT; }
  }

  /** The size of chunk k. */
  function SizeOf(k: nat): (r: nat)
    ensures r >= CHUNK0SIZE && r % 8 == 0
  {
    if k == 0 then CHUNK0SIZE else 2 * SizeOf(k - 1)
  }

  lemma {:induction false} ChunksDouble(k: nat)
    ensures SizeOf(k) == 1024 * Pow2(k)
  {
    if k > 0 { ChunksDouble(k - 1); }
  }

  /** A block that was handed out: where it is in chunk k. */
  datatype Region = Region(k: nat, offset: nat, size: nat)
  {
    predicate Apart(r: Region) { k != r.k || offset + size <= r.offset || r.offset + r.size <= offset }
  }

  predicate AllApart(rs: seq<Region>) { forall i, j :: 0 <= i < j < |rs| ==> rs[i].Apart(rs[j]) }

  lemma LeftAligned(left: nat, size: nat, w: LongSize)
    requires size <= left && left % w == 0 && size % w == 0
    ensures (left - size) % w == 0
  {}

  class Pool {
    /** The size of a long. */
    const w: LongSize
    const mem: array<array?<Byte>>
    const nLeft: array<nat>
    var curChunk: nat
    /** The blocks handed out since the last FreeChunks. */
    ghost var handed: seq<Region>

    /** Chunks can be freed, which is so even after an error. */
    ghost predicate Shaped()
      reads nLeft
    {
      mem.Length == nLeft.Length == NCHUNKS && nLeft[0] == 0
    }

    /** Chunk k is in use: it lies apart from the other ones. */
    ghost predicate InUse(k: nat)
      requires mem.Length == NCHUNKS && k < NCHUNKS
      reads mem
    {
      mem[k] != null && mem[k].Length == SizeOf(k) && forall j: nat :: j < k ==> mem[j] != mem[k]
    }

    /** Region r lies in a chunk in use; in the current one, above what is left. */
    ghost predicate Handed(r: Region)
      requires Shaped() && curChunk < NCHUNKS
      reads this, nLeft
    {
      && 1 <= r.k <= curChunk && r.size > 0 && r.offset % w == 0 && r.offset + r.size <= SizeOf(r.k)
      && (r.k == curChunk ==> nLeft[curChunk] <= r.offset)
    }

    ghost predicate AllHanded()
      requires Shaped() && curChunk < NCHUNKS
      reads this, nLeft
    {
      forall i :: 0 <= i < |handed| ==> Handed(handed[i])
    }

    /** The bytes [from, to) of chunk k are zero. */
    ghost predicate Zero(k: nat, from: nat, to: nat)
      requires mem.Length == NCHUNKS && k < NCHUNKS && mem[k] != null && from <= to <= mem[k].Length
      reads mem, mem[k]
    {
      forall i :: from <= i < to ==> mem[k][i] == 0
    }

    /** Region r lies inside a chunk in use, aligned, and is zero. */
    ghost predicate Cleared(r: Region)
      requires mem.Length == NCHUNKS
      reads mem, if r.k < mem.Length then {mem[r.k]} else {}
    {
      && r.k < NCHUNKS && InUse(r.k) && r.offset % w == 0 && r.offset + r.size <= SizeOf(r.k)
      && Zero(r.k, r.offset, r.offset + r.size)
    }

    ghost predicate Valid()
      reads this, mem, nLeft, if curChunk < mem.Length then {mem[curChunk]} else {}
    {
      && Shaped() && curChunk < NCHUNKS && AllHanded() && AllApart(handed)
      && (forall k: nat :: 1 <= k <= curChunk ==> InUse(k))
      && nLeft[curChunk] % w == 0 && (curChunk == 0 ==> mem[0] == null)
      && (curChunk > 0 ==> InUse(curChunk) && nLeft[curChunk] <= SizeOf(curChunk) && Zero(curChunk, 0, nLeft[curChunk]))
    }

    constructor (w: LongSize)
      ensures Valid() && this.w == w && handed == [] && fresh(mem) && fresh(nLeft)
    {
      this.w := w;
      mem := new array?<Byte>[NCHUNKS](_ => null);
      nLeft := new nat[NCHUNKS](_ => 0);
      curChunk := 0;
      handed := [];
    }

    /** Neither the current chunk nor the next one has room for this much. */
    predicate Exhausted(size: nat)
      requires Shaped() && curChunk < NCHUNKS
      reads this, nLeft
    {
      size > nLeft[curChunk] && (curChunk + 1 >= NCHUNKS || size > SizeOf(curChunk + 1))
    }

    /** Begins the next chunk. */
    method Grow(size: nat)
      requires Valid() && curChunk + 1 < NCHUNKS && size == SizeOf(curChunk + 1)
      modifies this`curChunk, mem, nLeft
      ensures Valid() && curChunk == old(curChunk) + 1 && nLeft[curChunk] == size
    {
      hide SizeOf, AllApart;
      curChunk := curChunk + 1;
      var m := new Byte[size](_ => 0);
      mem[curChunk] := m;
      nLeft[curChunk] := size;
      forall k: nat | 1 <= k <= curChunk ensures InUse(k) {
        assert k < curChunk ==> old(InUse(k));
      }
    }

    /** A block for n bytes, all zero, apart from every other one; None if memory is exhausted.  It
        covers the request unless the rounding wraps to nothing; a block of no bytes takes nothing,
        and may be a null pointer. */
    method NewChunk(n: nat) returns (r: Option<Region>)
      requires Valid() && n < UINT
      modifies this, mem, nLeft
      ensures r.None? == old(Exhausted(Rounded(n, w)))
      ensures r.None? <==> old(Rounded(n, w) > nLeft[curChunk] &&
                               (curChunk == 15 || Rounded(n, w) > 1024 * Pow2(curChunk + 1)))
      ensures r.None? ==> Shaped()
      ensures r.Some? ==> Valid() && r.value.size == Rounded(n, w) && (n <= r.value.size <==> n <= UINT - w)
      ensures r.Some? && r.value.size > 0 ==> handed == old(handed) + [r.value] && Cleared(r.value)
      ensures r.Some? && r.value.size == 0 ==> r.value == Region(curChunk, nLeft[curChunk], 0)
      ensures r.Some? && r.value.size == 0 ==> unchanged(this) && unchanged(mem) && nLeft[..] == old(nLeft[..])
    {
      hide Pow2;
      ChunksDouble(curChunk + 1);
      RoundedCovers(n, w);
      var size := Rounded(n, w);
      if size > nLeft[curChunk] {
        if curChunk + 1 >= NCHUNKS { curChunk := curChunk + 1; return None; }
        Grow(SizeOf(curChunk + 1));
        if size > nLeft[curChunk] { return None; }
      }
      var block := Take(size);
      r := Some(block);
    }

    /** Takes a block from the top of what is left. */
    method Take(size: nat) returns (r: Region)
      requires Valid() && size <= nLeft[curChunk] && size % w == 0
      modifies this`handed, nLeft
      ensures Valid() && r == Region(curChunk, old(nLeft[curChunk]) - size, size)
      ensures nLeft[..] == old(nLeft[..])[curChunk := r.offset]
      ensures handed == if size > 0 then old(handed) + [r] else old(handed)
      ensures size > 0 ==> Cleared(r)
    {
      LeftAligned(nLeft[curChunk], size, w);
      nLeft[curChunk] := nLeft[curChunk] - size;
      r := Region(curChunk, nLeft[curChunk], size);
      if size > 0 { handed := handed + [r]; }
    }

    /** A client writes into a block that it was handed. */
    method Write(ghost i: nat, r: Region, at: nat, b: Byte)
      requires Valid() && i < |handed| && handed[i] == r && at < r.size
      modifies mem[r.k]
      ensures Valid() && mem[r.k] != null && r.offset + at < mem[r.k].Length
      ensures mem[r.k][..] == old(mem[r.k][..])[r.offset + at := b]
    {
      assert Handed(handed[i]) && InUse(r.k);
      mem[r.k][r.offset + at] := b;
    }

    method FreeChunks()
      requires Shaped()
      modifies this, mem
      ensures Valid() && handed == []
    {
      curChunk := 0;
      handed := [];
      for i := 0 to NCHUNKS
        invariant forall j :: 0 <= j < i ==> mem[j] == null
        modifies mem
      {
        if mem[i] != null { mem[i] := null; }
      }
    }
  }
}
