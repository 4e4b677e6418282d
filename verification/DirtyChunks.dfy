/** `dirty_chunks` of crates/vmm-core/src/hdl.rs: a dirty-bitmap walk cut into pieces the kernel accepts. */
module DirtyChunks {
  import opened Prelude

  const DIRTY_CHUNK: int := 8 * PAGE_SIZE * 8 * PAGE_SIZE
  const BYTES_PER_CHUNK: int := DIRTY_CHUNK / PAGE_SIZE / 8

  /** One ioctl: guest range `[gpa, gpa + len)` and bitmap bytes `[lo, hi)`. */
  datatype Chunk = Chunk(gpa: int, len: int, lo: int, hi: int)

  datatype Error = Unaligned | Overflows | ShortBitmap

  function CeilDiv8(n: int): int { (n + 7) / 8 }

  /** The pieces tile `[start, start + len)` in order, and their bitmap slices tile the bitmap. */
  ghost predicate Tiles(cs: seq<Chunk>, start: int, len: int)
  {
    && (cs == [] <==> len == 0)
    && (cs != [] ==> cs[0].gpa == start && cs[0].lo == 0
                     && cs[|cs| - 1].gpa + cs[|cs| - 1].len == start + len)
    && (forall i :: 0 <= i < |cs| - 1 ==> cs[i].gpa + cs[i].len == cs[i + 1].gpa && cs[i].hi == cs[i + 1].lo)
  }

  /** What the kernel asks of one piece, and that it stays inside the caller's bitmap. */
  predicate Acceptable(c: Chunk, bitmapLen: int)
  {
    && Aligned(c.gpa) && Aligned(c.len) && 0 < c.len <= DIRTY_CHUNK
    && 0 <= c.lo && c.hi - c.lo == CeilDiv8(c.len / PAGE_SIZE) && c.hi <= bitmapLen
  }

  /** The overall bit of a page inside a piece. */
  function BitOf(c: Chunk, page: int): int { c.lo * 8 + (page - c.gpa) / PAGE_SIZE }

  /** Every page of the range is in one piece, and its bit falls at its own page number. */
  ghost predicate BitsLineUp(cs: seq<Chunk>, start: int, len: int)
  {
    forall i, k :: 0 <= i < |cs| && InPiece(cs[i], start, k) ==>
      BitOf(cs[i], start + k * PAGE_SIZE) == k && cs[i].lo * 8 <= k < cs[i].hi * 8
  }

  predicate InPiece(c: Chunk, start: int, k: int) { c.gpa <= start + k * PAGE_SIZE < c.gpa + c.len }

  /** The `i`-th piece starts `i` full pieces in. */
  predicate At(c: Chunk, i: int, start: int)
  {
    c.gpa == start + i * DIRTY_CHUNK && c.lo == i * BYTES_PER_CHUNK
  }

  lemma PieceBits(c: Chunk, i: int, start: int, k: int, bitmapLen: int)
    requires Aligned(start) && At(c, i, start) && Acceptable(c, bitmapLen) && InPiece(c, start, k)
    ensures BitOf(c, start + k * PAGE_SIZE) == k && c.lo * 8 <= k < c.hi * 8
  {
    var j := k - i * (DIRTY_CHUNK / PAGE_SIZE);
    assert start + k * PAGE_SIZE - c.gpa == j * PAGE_SIZE;
    assert 0 <= j < c.len / PAGE_SIZE;
  }

  /** Every piece is in place and acceptable, and each begins where the one before ends. */
  ghost predicate Pieces(cs: seq<Chunk>, start: int, bitmapLen: int)
  {
    && (forall i :: 0 <= i < |cs| ==> At(cs[i], i, start) && Acceptable(cs[i], bitmapLen))
    && (forall i :: 0 <= i < |cs| - 1 ==> Meets(cs[i], cs[i + 1]))
  }

  predicate Meets(a: Chunk, b: Chunk) { a.gpa + a.len == b.gpa && a.hi == b.lo }

  /** The pieces so far: a tiling of `[start, gpa)`, all full unless the range is done. */
  ghost predicate Built(cs: seq<Chunk>, start: int, gpa: int, len: int, bitmapLen: int)
  {
    && start <= gpa <= start + len && (cs == [] <==> gpa == start)
    && (gpa < start + len ==> gpa == start + |cs| * DIRTY_CHUNK)
    && (cs != [] ==> cs[|cs| - 1].gpa + cs[|cs| - 1].len == gpa)
    && (gpa < start + len && cs != [] ==> cs[|cs| - 1].hi == |cs| * BYTES_PER_CHUNK)
    && Pieces(cs, start, bitmapLen)
  }

  lemma ExtendPieces(cs: seq<Chunk>, start: int, bitmapLen: int, c: Chunk)
    requires Pieces(cs, start, bitmapLen) && At(c, |cs|, start) && Acceptable(c, bitmapLen)
    requires cs != [] ==> Meets(cs[|cs| - 1], c)
    ensures Pieces(cs + [c], start, bitmapLen)
  {
    var out := cs + [c];
    assert forall i :: 0 <= i < |cs| ==> out[i] == cs[i];
  }

  lemma Extend(cs: seq<Chunk>, start: int, gpa: int, len: int, bitmapLen: int, c: Chunk)
    requires Built(cs, start, gpa, len, bitmapLen) && gpa < start + len
    requires At(c, |cs|, start) && Acceptable(c, bitmapLen)
    requires c.len == if DIRTY_CHUNK < start + len - gpa then DIRTY_CHUNK else start + len - gpa
    requires c.len == DIRTY_CHUNK ==> c.hi == c.lo + BYTES_PER_CHUNK
    ensures Built(cs + [c], start, gpa + c.len, len, bitmapLen)
  {
    ExtendPieces(cs, start, bitmapLen, c);
  }

  lemma BuiltIsDone(cs: seq<Chunk>, start: int, len: int, bitmapLen: int)
    requires Built(cs, start, start + len, len, bitmapLen) && Aligned(start)
    ensures Tiles(cs, start, len) && BitsLineUp(cs, start, len)
    ensures forall c :: c in cs ==> Acceptable(c, bitmapLen)
  {
    if cs != [] {
      assert At(cs[0], 0, start);
    }
    forall i, k | 0 <= i < |cs| && InPiece(cs[i], start, k)
      ensures BitOf(cs[i], start + k * PAGE_SIZE) == k && cs[i].lo * 8 <= k < cs[i].hi * 8
    {
      PieceBits(cs[i], i, start, k, bitmapLen);
    }
  }

  /** Refuse what the kernel would, or cut the range into pieces. */
  method Split(start: int, len: int, bitmapLen: int) returns (r: Result<seq<Chunk>, Error>)
    requires 0 <= start <= U64_MAX && 0 <= len <= U64_MAX && 0 <= bitmapLen <= U64_MAX
    ensures r == Err(Unaligned) <==> !Aligned(start) || !Aligned(len)
    ensures r == Err(Overflows) <==> Aligned(start) && Aligned(len) && start + len > U64_MAX
    ensures r == Err(ShortBitmap) <==> Aligned(start) && Aligned(len) && start + len <= U64_MAX
                                       && bitmapLen * 8 < len / PAGE_SIZE
    ensures r.Ok? ==> Tiles(r.value, start, len) && BitsLineUp(r.value, start, len)
                      && forall c :: c in r.value ==> Acceptable(c, bitmapLen)
  {
    if !Aligned(start) || !Aligned(len) {
      return Err(Unaligned);
    }
    var end := start + len;
    if end > U64_MAX {
      return Err(Overflows);
    }
    if bitmapLen < CeilDiv8(len / PAGE_SIZE) {
      return Err(ShortBitmap);
    }
    var cs: seq<Chunk> := [];
    var gpa, off := start, 0;
    while gpa < end
      invariant Built(cs, start, gpa, len, bitmapLen)
      invariant off == |cs| * BYTES_PER_CHUNK
    {
      var chunkLen := if DIRTY_CHUNK < end - gpa then DIRTY_CHUNK else end - gpa;
      var bitLen := CeilDiv8(chunkLen / PAGE_SIZE);
      var c := Chunk(gpa, chunkLen, off, off + bitLen);
      SliceFits(start, len, gpa, |cs|, chunkLen, bitmapLen);
      Extend(cs, start, gpa, len, bitmapLen, c);
      cs := cs + [c];
      gpa := gpa + chunkLen;
      off := off + BYTES_PER_CHUNK;
    }
    BuiltIsDone(cs, start, len, bitmapLen);
    return Ok(cs);
  }

  /** The bitmap slice of piece `i` ends inside a bitmap that holds a bit for every page. */
  lemma SliceFits(start: int, len: int, gpa: int, i: nat, chunkLen: int, bitmapLen: int)
    requires Aligned(start) && Aligned(len) && gpa == start + i * DIRTY_CHUNK && gpa < start + len
    requires chunkLen == if DIRTY_CHUNK < start + len - gpa then DIRTY_CHUNK else start + len - gpa
    requires CeilDiv8(len / PAGE_SIZE) <= bitmapLen
    ensures Aligned(gpa) && Aligned(chunkLen) && Aligned(gpa + chunkLen) && 0 < chunkLen <= DIRTY_CHUNK
    ensures i * BYTES_PER_CHUNK + CeilDiv8(chunkLen / PAGE_SIZE) <= bitmapLen
    ensures chunkLen == DIRTY_CHUNK ==> CeilDiv8(chunkLen / PAGE_SIZE) == BYTES_PER_CHUNK
  {
    var pages := len / PAGE_SIZE;
    assert len == pages * PAGE_SIZE;
    var before := i * (DIRTY_CHUNK / PAGE_SIZE);
    assert gpa == start + before * PAGE_SIZE;
    assert chunkLen / PAGE_SIZE <= pages - before;
    assert before == 8 * (i * BYTES_PER_CHUNK);
  }

  // ----- every address in one piece

  predicate Spans(c: Chunk, x: int) { c.gpa <= x < c.gpa + c.len }

  lemma {:induction false} PiecesInOrder(cs: seq<Chunk>, start: int, len: int, bitmapLen: int, i: nat, j: nat)
    requires Tiles(cs, start, len) && (forall c :: c in cs ==> Acceptable(c, bitmapLen)) && i < j < |cs|
    ensures cs[i].gpa + cs[i].len <= cs[j].gpa
    decreases j
  {
    assert cs[j - 1].gpa + cs[j - 1].len == cs[j - 1 + 1].gpa && cs[j - 1] in cs;
    if i < j - 1 {
      PiecesInOrder(cs, start, len, bitmapLen, i, j - 1);
    }
  }

  lemma {:induction false} PieceBelow(cs: seq<Chunk>, start: int, len: int, x: int, n: nat) returns (i: nat)
    requires Tiles(cs, start, len) && start <= x < start + len
    requires n < |cs| && x < cs[n].gpa + cs[n].len
    ensures i < |cs| && Spans(cs[i], x)
    decreases n
  {
    i := n;
    if x < cs[n].gpa {
      assert n > 0;
      assert cs[n - 1].gpa + cs[n - 1].len == cs[n - 1 + 1].gpa;
      i := PieceBelow(cs, start, len, x, n - 1);
    }
  }

  /** Every address of a range that was cut lies in exactly one piece. */
  lemma InOnePiece(cs: seq<Chunk>, start: int, len: int, bitmapLen: int, x: int)
    requires Tiles(cs, start, len) && (forall c :: c in cs ==> Acceptable(c, bitmapLen)) && start <= x < start + len
    ensures exists i :: 0 <= i < |cs| && Spans(cs[i], x) && forall j :: 0 <= j < |cs| && Spans(cs[j], x) ==> j == i
  {
    var i := PieceBelow(cs, start, len, x, |cs| - 1);
    forall j | 0 <= j < |cs| && Spans(cs[j], x)
      ensures j == i
    {
      if j < i {
        PiecesInOrder(cs, start, len, bitmapLen, j, i);
      } else if i < j {
        PiecesInOrder(cs, start, len, bitmapLen, i, j);
      }
    }
  }
}
