/** The block copies of src/memcpy-vfp, proved against what `memmove` and `memcpy` promise.

    The inline assembly is given by its effect: it moves 64 bytes at a time through the VFP registers,
    lowest address first. */
module VfpCopy {

  newtype byte = x: int | 0 <= x < 256

  /** A C pointer into a mapped buffer: the buffer, the address it is mapped at, and an offset. */
  datatype Ptr = Ptr(buf: array<byte>, vbase: int, off: int) {
    function Addr(): int { vbase + off }
    function Plus(n: int): Ptr { this.(off := off + n) }
  }

  const BLOCK_SIZE := 1024
  const MIN_SIZE_PER_THREAD := 512
  const MIN_THREADS_NUM := 2
  const MAX_THREADS_NUM := 2

  /** `p` can be read or written for `n` bytes. */
  ghost predicate InBuf(p: Ptr, n: int) {
    0 <= p.off && 0 <= n && p.off + n <= p.buf.Length
  }

  /** One address space: a buffer is mapped once, and distinct buffers are mapped apart. */
  ghost predicate OneSpace(p: Ptr, q: Ptr) {
    && (p.buf == q.buf ==> p.vbase == q.vbase)
    && (p.buf != q.buf ==> p.vbase + p.buf.Length <= q.vbase || q.vbase + q.buf.Length <= p.vbase)
  }

  predicate Apart(p: Ptr, q: Ptr, n: int) {
    p.Addr() + n <= q.Addr() || q.Addr() + n <= p.Addr()
  }

  /** The promise of `memmove` (section 7.24.2.2 of ISO/IEC 9899:2011): `r` is `d` with the `n` bytes
      that `s` held at `sOff` stored at `dOff`, and every other byte as it was. */
  ghost predicate Copied(r: seq<byte>, d: seq<byte>, dOff: int, s: seq<byte>, sOff: int, n: int) {
    && |r| == |d| && 0 <= n
    && 0 <= dOff && dOff + n <= |d| && 0 <= sOff && sOff + n <= |s|
    && forall k {:trigger r[k]} :: 0 <= k < |r| ==>
         r[k] == if dOff <= k < dOff + n then s[k - dOff + sOff] else d[k]
  }

  lemma CopiedUnique(r: seq<byte>, r': seq<byte>, d: seq<byte>, dOff: int, s: seq<byte>, sOff: int, n: int)
    requires Copied(r, d, dOff, s, sOff, n) && Copied(r', d, dOff, s, sOff, n)
    ensures r == r'
  {
    forall k | 0 <= k < |r| ensures r[k] == r'[k] { }
  }

  /** `memcpy` of the C library, on ranges that do not overlap. */
  method Memcpy(dst: Ptr, src: Ptr, size: int)
    requires InBuf(dst, size) && InBuf(src, size)
    requires dst.buf != src.buf || dst.off + size <= src.off || src.off + size <= dst.off
    modifies dst.buf
    ensures Copied(dst.buf[..], old(dst.buf[..]), dst.off, old(src.buf[..]), src.off, size)
  {
    forall i | dst.off <= i < dst.off + size {
      dst.buf[i] := src.buf[i - dst.off + src.off];
    }
  }

  /** A move of `total` bytes: the two buffers as they were, and the two offsets. */
  datatype Move = Move(d0: seq<byte>, s0: seq<byte>, dOff: int, sOff: int, total: int)

  /** The bytes still to be moved: an interval whose source is intact, all others being in place. */
  ghost predicate Remaining(m: Move, d: seq<byte>, s: seq<byte>, lo: int, n: int) {
    var Move(d0, s0, dOff, sOff, total) := m;
    && |d| == |d0| && |s| == |s0|
    && 0 <= dOff && dOff + total <= |d0| && 0 <= sOff && sOff + total <= |s0|
    && 0 <= lo && 0 <= n && lo + n <= total
    && (forall k {:trigger s[k]} :: sOff + lo <= k < sOff + lo + n ==> s[k] == s0[k])
    && (forall k {:trigger d[k]} :: dOff <= k < dOff + total && !(dOff + lo <= k < dOff + lo + n)
          ==> d[k] == s0[k - dOff + sOff])
    && (forall k {:trigger d[k]} :: 0 <= k < |d0| && !(dOff <= k < dOff + total) ==> d[k] == d0[k])
  }

  lemma RemainingAll(m: Move)
    requires 0 <= m.dOff && m.dOff + m.total <= |m.d0| && 0 <= m.sOff && m.sOff + m.total <= |m.s0| && 0 <= m.total
    ensures Remaining(m, m.d0, m.s0, 0, m.total)
  {
  }

  lemma RemainingDone(m: Move, d: seq<byte>, s: seq<byte>, lo: int)
    requires Remaining(m, d, s, lo, 0)
    ensures Copied(d, m.d0, m.dOff, m.s0, m.sOff, m.total)
  {
  }

  /** No source byte still to be read is overwritten by storing a block of `b` out of `n` bytes. */
  ghost predicate Safe(m: Move, same: bool, back: bool, b: int, n: int) {
    same ==> b == n || (if back then m.sOff <= m.dOff else m.dOff <= m.sOff)
             || m.dOff + m.total <= m.sOff || m.sOff + m.total <= m.dOff
  }

  /** Moving one block at the front or the back of what remains leaves the rest to do. */
  lemma BlockStep(m: Move, d: seq<byte>, s: seq<byte>, d': seq<byte>, s': seq<byte>,
                  lo: int, n: int, back: bool, b: int, same: bool)
    requires Remaining(m, d, s, lo, n) && 0 < b <= n && Safe(m, same, back, b, n)
    requires var at := if back then lo + n - b else lo;
             Copied(d', d, m.dOff + at, s, m.sOff + at, b)
    requires if same then s' == d' && s == d else s' == s
    ensures Remaining(m, d', s', if back then lo else lo + b, n - b)
  {
    var Move(d0, s0, dOff, sOff, total) := m;
    var at := if back then lo + n - b else lo;
    var lo', n' := if back then lo else lo + b, n - b;
    forall k | dOff <= k < dOff + total && !(dOff + lo' <= k < dOff + lo' + n') ensures d'[k] == s0[k - dOff + sOff] {
      if dOff + at <= k < dOff + at + b {
        assert d'[k] == s[k - dOff + sOff];
      } else {
        assert d'[k] == d[k];
      }
    }
    forall k | sOff + lo' <= k < sOff + lo' + n' ensures s'[k] == s0[k] {
      assert s[k] == s0[k];
    }
    forall k | 0 <= k < |d0| && !(dOff <= k < dOff + total) ensures d'[k] == d0[k] {
      assert d[k] == d0[k];
    }
  }

  /** `vfpcpy`: the VFP loop, on ranges that do not overlap. */
  method VfpCpy(dst: Ptr, src: Ptr, size: int)
    requires size > 0 && size % 64 == 0
    requires InBuf(dst, size) && InBuf(src, size)
    requires dst.buf != src.buf || dst.off + size <= src.off || src.off + size <= dst.off
    modifies dst.buf
    ensures Copied(dst.buf[..], old(dst.buf[..]), dst.off, old(src.buf[..]), src.off, size)
  {
    hide Remaining, Copied;
    ghost var m := Move(dst.buf[..], src.buf[..], dst.off, src.off, size);
    RemainingAll(m);
    var left, at := size, 0;
    while left > 0
      invariant 0 <= left && left % 64 == 0 && at == size - left
      invariant Remaining(m, dst.buf[..], src.buf[..], at, left)
    {
      ghost var d, s := dst.buf[..], src.buf[..];
      Memcpy(dst.Plus(at), src.Plus(at), 64);
      BlockStep(m, d, s, dst.buf[..], src.buf[..], at, left, false, 64, dst.buf == src.buf);
      left, at := left - 64, at + 64;
    }
    RemainingDone(m, dst.buf[..], src.buf[..], at);
  }

  /** One block through the aligned bounce buffer: any overlap of source and destination is fine. */
  method CopyBlockBounced(dst: Ptr, src: Ptr, size: int, bounce: array<byte>)
    requires 0 < size <= BLOCK_SIZE && size % 64 == 0 && bounce.Length == BLOCK_SIZE
    requires InBuf(dst, size) && InBuf(src, size)
    requires bounce != dst.buf && bounce != src.buf
    modifies dst.buf, bounce
    ensures Copied(dst.buf[..], old(dst.buf[..]), dst.off, old(src.buf[..]), src.off, size)
  {
    ghost var d0, s0 := dst.buf[..], src.buf[..];
    var b := Ptr(bounce, 0, 0);
    VfpCpy(b, src, size);
    ghost var held := bounce[..];
    assert dst.buf[..] == d0;
    Memcpy(dst, b, size);
    forall k | 0 <= k < dst.buf.Length
      ensures dst.buf[..][k] == if dst.off <= k < dst.off + size then s0[k - dst.off + src.off] else d0[k]
    {
      if dst.off <= k < dst.off + size { assert held[k - dst.off] == s0[k - dst.off + src.off]; }
    }
  }

  /** One block of a move, at the front or the back of what remains. */
  method MoveBlock(dst: Ptr, src: Ptr, b: int, bounce: array<byte>, ghost m: Move, ghost lo: int, ghost n: int,
                   ghost back: bool)
    requires 0 < b <= BLOCK_SIZE && b % 64 == 0 && b <= n && bounce.Length == BLOCK_SIZE
    requires bounce != dst.buf && bounce != src.buf
    requires Remaining(m, dst.buf[..], src.buf[..], lo, n) && Safe(m, dst.buf == src.buf, back, b, n)
    requires var at := if back then lo + n - b else lo; dst.off == m.dOff + at && src.off == m.sOff + at
    modifies dst.buf, bounce
    ensures Remaining(m, dst.buf[..], src.buf[..], if back then lo else lo + b, n - b)
  {
    ghost var d, s := dst.buf[..], src.buf[..];
    CopyBlockBounced(dst, src, b, bounce);
    BlockStep(m, d, s, dst.buf[..], src.buf[..], lo, n, back, b, dst.buf == src.buf);
  }

  /** The bytes of `n` blocks. */
  ghost function Span(b: nat, n: nat): (r: nat)
    ensures n > 0 ==> r >= b
  {
    if n == 0 then 0 else Span(b, n - 1) + b
  }

  lemma {:induction false} SpanIsProduct(b: nat, n: nat)
    ensures Span(b, n) == b * n
  {
    if n > 0 { SpanIsProduct(b, n - 1); }
  }

  lemma AlignedSum(x: int, y: int)
    requires x % 128 == 0 && y % 128 == 0
    ensures (x + y) % 128 == 0 && (x - y) % 128 == 0
  {
    assert x == 128 * (x / 128) && y == 128 * (y / 128);
    assert x + y == 128 * (x / 128 + y / 128) && x - y == 128 * (x / 128 - y / 128);
  }

  lemma {:induction false} SpanAligned(b: nat, n: nat)
    requires b % 128 == 0
    ensures Span(b, n) % 128 == 0
  {
    if n > 0 {
      SpanAligned(b, n - 1);
      AlignedSum(Span(b, n - 1), b);
    }
  }

  lemma WholeBlocks(size: nat, b: nat)
    requires 0 < b <= size
    ensures 1 <= size / b && Span(b, size / b) <= size < Span(b, size / b) + b
    ensures b == size ==> size / b == 1
    ensures Span(b, size / b) == b * (size / b)
  {
    SpanIsProduct(b, size / b);
  }

  /** The counted loop of the two-pass copy: the whole blocks of `size`, walking up or down from
      `dst` and `src`. Also returns the size of what is left. */
  method CopyBlocks(dst: Ptr, src: Ptr, size: nat, blockSize: nat, down: bool, bounce: array<byte>,
                    ghost m: Move, ghost lo: int)
    returns (pdst: Ptr, psrc: Ptr, rest: nat)
    requires 0 < blockSize <= BLOCK_SIZE && blockSize <= size && size % 128 == 0
    requires blockSize == BLOCK_SIZE || blockSize == size
    requires bounce.Length == BLOCK_SIZE && bounce != dst.buf && bounce != src.buf
    requires Remaining(m, dst.buf[..], src.buf[..], lo, size)
    requires var at := if down then lo + size - blockSize else lo;
             dst.off == m.dOff + at && src.off == m.sOff + at
    requires Safe(m, dst.buf == src.buf, down, blockSize, size)
    modifies dst.buf, bounce
    ensures rest < blockSize && rest < size && rest % 128 == 0 && (blockSize == size ==> rest == 0)
    ensures Remaining(m, dst.buf[..], src.buf[..], if down then lo else lo + size - rest, rest)
    ensures pdst == dst.Plus(if down then rest - size else size - rest)
    ensures psrc == src.Plus(if down then rest - size else size - rest)
  {
    hide Span, Remaining;
    psrc, pdst := src, dst;
    var i, n: nat := 0, size / blockSize;
    WholeBlocks(size, blockSize);
    SpanAligned(blockSize, n);
    AlignedSum(size, Span(blockSize, n));
    ghost var left := size;
    while i < n
      invariant 0 <= i <= n && left == Span(blockSize, n - i) + size - Span(blockSize, n)
      invariant i > 0 && blockSize == size ==> i == n
      invariant pdst == dst.Plus(if down then left - size else size - left)
      invariant psrc == src.Plus(if down then left - size else size - left)
      invariant Remaining(m, dst.buf[..], src.buf[..], if down then lo else lo + size - left, left)
    {
      SpanStep(blockSize, n - i);
      MoveBlock(pdst, psrc, blockSize, bounce, m, if down then lo else lo + size - left, left, down);
      psrc := psrc.Plus(if down then 0 - blockSize else blockSize);
      pdst := pdst.Plus(if down then 0 - blockSize else blockSize);
      i, left := i + 1, left - blockSize;
    }
    SpanNone(blockSize);
    rest := size - blockSize * n;
  }

  lemma SpanStep(b: nat, n: nat)
    requires n > 0
    ensures Span(b, n) == Span(b, n - 1) + b
  {
  }

  lemma SpanNone(b: nat)
    ensures Span(b, 0) == 0
  {
  }

  /** `tegra_copy_block_vfp_2_pass`: memmove, for every overlap of source and destination. */
  method CopyBlock2Pass(dst: Ptr, src: Ptr, size0: nat)
    requires size0 > 0 && size0 % 128 == 0
    requires InBuf(dst, size0) && InBuf(src, size0) && OneSpace(dst, src)
    modifies dst.buf
    ensures Copied(dst.buf[..], old(dst.buf[..]), dst.off, old(src.buf[..]), src.off, size0)
  {
    ghost var m := Move(dst.buf[..], src.buf[..], dst.off, src.off, size0);
    var bounce := new byte[BLOCK_SIZE];
    var size, blockSize, psrc, pdst, move := size0, BLOCK_SIZE, src, dst, true;

    if dst.Addr() + size <= src.Addr() || src.Addr() + size <= dst.Addr() {
      move := false;
    }
    ghost var lo := 0;
    while true
      invariant size > 0 && size % 128 == 0 && blockSize == BLOCK_SIZE
      invariant pdst == dst.Plus(lo) && psrc == src.Plus(lo)
      invariant size < size0 ==> size < BLOCK_SIZE
      invariant size == size0 ==> lo == 0 && (!move <==> Apart(dst, src, size0))
      invariant Remaining(m, dst.buf[..], src.buf[..], lo, size)
      decreases size
    {
      if size <= blockSize {
        blockSize := size;
        move := false;
      }
      var down := pdst.Addr() > psrc.Addr() && move;
      if down {
        psrc := psrc.Plus(size - blockSize);
        pdst := pdst.Plus(size - blockSize);
      }
      ghost var before := size;
      pdst, psrc, size := CopyBlocks(pdst, psrc, size, blockSize, down, bounce, m, lo);
      lo := if down then lo else lo + before - size;
      if dst.Addr() > pdst.Addr() { pdst := dst; }
      if src.Addr() > psrc.Addr() { psrc := src; }
      if size == 0 { break; }
    }
    RemainingDone(m, dst.buf[..], src.buf[..], lo);
  }

  /** `tegra_memcpy_vfp_copy_is_safe`: what the aligned copies demand of their callers. */
  predicate CopyIsSafe(dst: Ptr, src: Ptr, size: int) {
    src.Addr() % 128 == 0 && dst.Addr() % 128 == 0 && size % 128 == 0 && size >= 128
  }

  /** `tegra_memcpy_vfp_aligned`, also used as `tegra_memmove_vfp_aligned`. */
  method CopyAligned(dst: Ptr, src: Ptr, size: nat)
    requires dst == src || size == 0 || CopyIsSafe(dst, src, size)
    requires InBuf(dst, size) && InBuf(src, size) && OneSpace(dst, src)
    modifies dst.buf
    ensures Copied(dst.buf[..], old(dst.buf[..]), dst.off, old(src.buf[..]), src.off, size)
  {
    if dst == src || size == 0 {
      return;
    }
    CopyBlock2Pass(dst, src, size);
  }

  /** `tegra_memcpy_vfp_unaligned_2_pass`: align the source, copy whole 128-byte units (through the
      bounce buffer when the destination is not aligned), then the tail. */
  method CopyUnaligned2Pass(dst: Ptr, src: Ptr, size0: nat)
    requires size0 >= 128
    requires InBuf(dst, size0) && InBuf(src, size0) && OneSpace(dst, src) && Apart(dst, src, size0)
    modifies dst.buf
    ensures Copied(dst.buf[..], old(dst.buf[..]), dst.off, old(src.buf[..]), src.off, size0)
  {
    ghost var m := Move(dst.buf[..], src.buf[..], dst.off, src.off, size0);
    var bounceBuf := new byte[BLOCK_SIZE];
    var size, at := size0, 0;
    var bytesAlign := src.Addr() % 128;
    if bytesAlign > 0 {
      MemcpyStep(dst, src, 128 - bytesAlign, m, at, size);
      at, size := 128 - bytesAlign, size0 - (128 - bytesAlign);
    }
    bytesAlign := dst.Plus(at).Addr() % 128;
    var bounce := bytesAlign > 0;
    while size > 127
      invariant 0 <= size && at == size0 - size
      invariant Remaining(m, dst.buf[..], src.buf[..], at, size)
    {
      var blockSize := size - size % 128;
      if bounce {
        if blockSize > BLOCK_SIZE {
          blockSize := BLOCK_SIZE;
        }
        MoveBlock(dst.Plus(at), src.Plus(at), blockSize, bounceBuf, m, at, size, false);
      } else {
        VfpStep(dst.Plus(at), src.Plus(at), blockSize, m, at, size);
      }
      at, size := at + blockSize, size - blockSize;
    }
    if size > 0 {
      MemcpyStep(dst.Plus(at), src.Plus(at), size, m, at, size);
      at, size := at + size, 0;
    }
    RemainingDone(m, dst.buf[..], src.buf[..], at);
  }

  method MemcpyStep(dst: Ptr, src: Ptr, b: int, ghost m: Move, ghost at: int, ghost n: int)
    requires 0 < b <= n && Remaining(m, dst.buf[..], src.buf[..], at, n)
    requires dst.off == m.dOff + at && src.off == m.sOff + at
    requires dst.buf != src.buf || m.dOff + m.total <= m.sOff || m.sOff + m.total <= m.dOff
    modifies dst.buf
    ensures Remaining(m, dst.buf[..], src.buf[..], at + b, n - b)
  {
    ghost var d, s := dst.buf[..], src.buf[..];
    Memcpy(dst, src, b);
    BlockStep(m, d, s, dst.buf[..], src.buf[..], at, n, false, b, dst.buf == src.buf);
  }

  method VfpStep(dst: Ptr, src: Ptr, b: int, ghost m: Move, ghost at: int, ghost n: int)
    requires 0 < b <= n && b % 64 == 0 && Remaining(m, dst.buf[..], src.buf[..], at, n)
    requires dst.off == m.dOff + at && src.off == m.sOff + at
    requires dst.buf != src.buf || m.dOff + m.total <= m.sOff || m.sOff + m.total <= m.dOff
    modifies dst.buf
    ensures Remaining(m, dst.buf[..], src.buf[..], at + b, n - b)
  {
    ghost var d, s := dst.buf[..], src.buf[..];
    VfpCpy(dst, src, b);
    BlockStep(m, d, s, dst.buf[..], src.buf[..], at, n, false, b, dst.buf == src.buf);
  }

  /** `tegra_memcpy_vfp_unaligned`: small copies do not pay for the alignment. */
  method CopyUnaligned(dst: Ptr, src: Ptr, size: nat)
    requires InBuf(dst, size) && InBuf(src, size) && OneSpace(dst, src) && Apart(dst, src, size)
    modifies dst.buf
    ensures Copied(dst.buf[..], old(dst.buf[..]), dst.off, old(src.buf[..]), src.off, size)
  {
    if size < 192 {
      Memcpy(dst, src, size);
    } else {
      CopyUnaligned2Pass(dst, src, size);
    }
  }

  /** `tegra_num_copy_threads`, with the number of processors as a parameter. */
  function NumCopyThreads(size: nat, nprocs: nat): (n: nat)
    ensures 1 <= n <= MAX_THREADS_NUM && (n > 1 ==> size >= 512)
  {
    var sizeThreads := (size + MIN_SIZE_PER_THREAD) / MIN_SIZE_PER_THREAD;
    var cpuThreads := if sizeThreads > 1 then nprocs else 1;
    var threadsNum := if sizeThreads < cpuThreads then sizeThreads else cpuThreads;
    if threadsNum < MIN_THREADS_NUM then 1
    else if threadsNum > MAX_THREADS_NUM then MAX_THREADS_NUM
    else threadsNum
  }

  /** The work handed to one thread (or kept for the final `memcpy`): an interval of the copy. */
  datatype Chunk = Chunk(lo: int, len: int, byThread: bool)

  ghost predicate Covers(todo: set<Chunk>, i: int) {
    exists c :: c in todo && c.lo <= i < c.lo + c.len
  }

  /** Every byte outside the chunks still to run is in place; the source is intact. */
  ghost predicate Scheduled(m: Move, d: seq<byte>, s: seq<byte>, todo: set<Chunk>) {
    var Move(d0, s0, dOff, sOff, total) := m;
    && |d| == |d0| && |s| == |s0|
    && 0 <= total && 0 <= dOff && dOff + total <= |d0| && 0 <= sOff && sOff + total <= |s0|
    && (forall k {:trigger s[k]} :: sOff <= k < sOff + total ==> s[k] == s0[k])
    && (forall k {:trigger d[k]} :: 0 <= k < |d0| && !(dOff <= k < dOff + total) ==> d[k] == d0[k])
    && (forall k {:trigger d[k]} :: dOff <= k < dOff + total ==>
          d[k] == s0[k - dOff + sOff] || Covers(todo, k - dOff))
  }

  lemma ChunkDone(m: Move, d: seq<byte>, s: seq<byte>, d': seq<byte>, s': seq<byte>, todo: set<Chunk>, c: Chunk,
                  same: bool)
    requires Scheduled(m, d, s, todo) && c in todo && 0 <= c.lo && 0 <= c.len && c.lo + c.len <= m.total
    requires Copied(d', d, m.dOff + c.lo, s, m.sOff + c.lo, c.len)
    requires if same then s' == d' && s == d else s' == s
    requires same ==> m.dOff + m.total <= m.sOff || m.sOff + m.total <= m.dOff
    ensures Scheduled(m, d', s', todo - {c})
  {
    var Move(d0, s0, dOff, sOff, total) := m;
    forall k | dOff <= k < dOff + total
      ensures d'[k] == s0[k - dOff + sOff] || Covers(todo - {c}, k - dOff)
    {
      if c.lo <= k - dOff < c.lo + c.len {
        assert d'[k] == s[k - dOff + sOff];
      } else {
        assert d'[k] == d[k];
        if d[k] != s0[k - dOff + sOff] {
          var c' :| c' in todo && c'.lo <= k - dOff < c'.lo + c'.len;
          assert c' in todo - {c};
        }
      }
    }
    forall k | sOff <= k < sOff + total ensures s'[k] == s0[k] {
      assert s[k] == s0[k];
    }
  }

  /** How `tegra_memcpy_vfp_threaded` divides the copy: equal chunks for the threads, the remainder
      for a plain `memcpy`. */
  function ThreadChunk(size: nat, threads: nat): (chunk: nat)
    requires 1 <= threads
  {
    if threads > 1 then size / threads - size / threads % 128 else size
  }

  ghost function ThreadPlan(size: nat, threads: nat): set<Chunk>
    requires 1 <= threads
  {
    var chunk := ThreadChunk(size, threads);
    {Chunk(0, chunk, true), Chunk(chunk * threads, size - chunk * threads, false)}
    + if threads == 2 then {Chunk(chunk, chunk, true)} else {}
  }

  /** A chunk lies in the copy, and one given to a thread meets what the aligned copy demands. */
  ghost predicate ChunkOk(c: Chunk, size: nat) {
    && 0 <= c.lo && 0 <= c.len && c.lo + c.len <= size
    && (c.byThread ==> c.lo % 128 == 0 && c.len % 128 == 0 && c.len >= 128)
  }

  /** The chunks partition the copy and each meets its callee's precondition. */
  lemma PlanCovers(size: nat, threads: nat)
    requires size % 128 == 0 && size >= 128
    requires 1 <= threads <= MAX_THREADS_NUM && (threads > 1 ==> size >= 512)
    ensures forall c :: c in ThreadPlan(size, threads) ==> ChunkOk(c, size)
    ensures forall k :: 0 <= k < size ==> Covers(ThreadPlan(size, threads), k)
  {
    var chunk := ThreadChunk(size, threads);
    var first, rest := Chunk(0, chunk, true), Chunk(chunk * threads, size - chunk * threads, false);
    forall k | 0 <= k < size ensures Covers(ThreadPlan(size, threads), k) {
      if k < chunk {
        assert first in ThreadPlan(size, threads);
      } else if threads == 2 && k < chunk + chunk {
        assert Chunk(chunk, chunk, true) in ThreadPlan(size, threads);
      } else {
        assert rest in ThreadPlan(size, threads);
      }
    }
  }

  /** No byte is copied by two of them. */
  lemma PlanDisjoint(size: nat, threads: nat, c: Chunk, c': Chunk)
    requires size % 128 == 0 && size >= 128
    requires 1 <= threads <= MAX_THREADS_NUM && (threads > 1 ==> size >= 512)
    requires c in ThreadPlan(size, threads) && c' in ThreadPlan(size, threads) && c != c'
    ensures c.lo + c.len <= c'.lo || c'.lo + c'.len <= c.lo
  {
    assert threads == 1 || threads == 2;
  }

  method CopyChunk(dst: Ptr, src: Ptr, size: nat, c: Chunk)
    requires dst.Addr() % 128 == 0 && src.Addr() % 128 == 0 && ChunkOk(c, size)
    requires InBuf(dst, size) && InBuf(src, size) && OneSpace(dst, src) && Apart(dst, src, size)
    modifies dst.buf
    ensures Copied(dst.buf[..], old(dst.buf[..]), dst.off + c.lo, old(src.buf[..]), src.off + c.lo, c.len)
  {
    if c.byThread {
      CopyAligned(dst.Plus(c.lo), src.Plus(c.lo), c.len);
    } else {
      Memcpy(dst.Plus(c.lo), src.Plus(c.lo), c.len);
    }
  }

  /** Runs the chunks in an arbitrary order. */
  method RunChunks(dst: Ptr, src: Ptr, size: nat, plan: set<Chunk>, ghost m: Move)
    requires dst.Addr() % 128 == 0 && src.Addr() % 128 == 0
    requires InBuf(dst, size) && InBuf(src, size) && OneSpace(dst, src) && Apart(dst, src, size)
    requires m.dOff == dst.off && m.sOff == src.off && m.total == size
    requires Scheduled(m, dst.buf[..], src.buf[..], plan)
    requires forall c :: c in plan ==> ChunkOk(c, size)
    modifies dst.buf
    ensures Scheduled(m, dst.buf[..], src.buf[..], {})
  {
    var todo := plan;
    while todo != {}
      invariant todo <= plan && Scheduled(m, dst.buf[..], src.buf[..], todo)
      decreases todo
    {
      var c: Chunk :| c in todo;
      ghost var d, s := dst.buf[..], src.buf[..];
      CopyChunk(dst, src, size, c);
      ChunkDone(m, d, s, dst.buf[..], src.buf[..], todo, c, dst.buf == src.buf);
      todo := todo - {c};
    }
  }

  /** `tegra_memcpy_vfp_threaded` with the aligned copy, as the pools use it. The threads' chunks and
      the remainder run in an arbitrary order. */
  method CopyThreaded(dst: Ptr, src: Ptr, size: nat, nprocs: nat)
    requires CopyIsSafe(dst, src, size)
    requires InBuf(dst, size) && InBuf(src, size) && OneSpace(dst, src) && Apart(dst, src, size)
    modifies dst.buf
    ensures Copied(dst.buf[..], old(dst.buf[..]), dst.off, old(src.buf[..]), src.off, size)
  {
    hide Scheduled, ChunkOk, NumCopyThreads, Copied;
    ghost var m := Move(dst.buf[..], src.buf[..], dst.off, src.off, size);
    var threadsNum := NumCopyThreads(size, nprocs);
    var chunk := ThreadChunk(size, threadsNum);
    var todo := {Chunk(0, chunk, true), Chunk(chunk * threadsNum, size - chunk * threadsNum, false)};
    if threadsNum == 2 {
      todo := todo + {Chunk(chunk, chunk, true)};
    }
    assert todo == ThreadPlan(size, threadsNum);
    PlanCovers(size, threadsNum);
    PlanScheduled(m, todo);
    RunChunks(dst, src, size, todo, m);
    AllRun(m, dst.buf[..], src.buf[..]);
  }

  lemma AllRun(m: Move, d: seq<byte>, s: seq<byte>)
    requires Scheduled(m, d, s, {})
    ensures Copied(d, m.d0, m.dOff, m.s0, m.sOff, m.total)
  {
  }

  lemma PlanScheduled(m: Move, plan: set<Chunk>)
    requires 0 <= m.total && 0 <= m.dOff && m.dOff + m.total <= |m.d0| && 0 <= m.sOff && m.sOff + m.total <= |m.s0|
    requires forall k :: 0 <= k < m.total ==> Covers(plan, k)
    ensures Scheduled(m, m.d0, m.s0, plan)
  {
  }
}
