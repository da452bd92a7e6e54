/** The relocating memory pool of src/mempool/pool_alloc.c.

    Addresses are offsets from the pool's base, and -1 stands for the NULL that an allocation returns
    when it fails. */
module MemPool {
  import opened Bitmap
  import opened PoolLayout
  import opened PoolContents
  import opened VfpCopy

  /** `~0ul` on a 32-bit machine */
  const MAX_ULONG := 0xFFFF_FFFF

  /** `struct mem_pool_entry`: the handle that the owner of an allocation keeps. */
  class Owner {
    var pool: Pool?
    var id: int

    constructor ()
      ensures pool == null
    {
      pool, id := null, 0;
    }
  }

  /** `struct mem_pool` with the memory it manages. */
  class Pool {
    const mem: array<byte>
    const poolSize: nat
    var vbase: int
    var accessRefcount: nat
    var fragmented: bool
    var bitmapFull: bool
    var remain: int
    var words: seq<Word>
    var entries: seq<Entry<Owner?>>
    ghost var used: seq<bool>
    ghost var slot: map<Owner?, nat>
    ghost var live: map<Owner?, seq<byte>>  // the bytes of every live allocation

    /** `mem_pool_init`, with the memory of the pool's buffer object. */
    constructor (size: nat, bitmapSize: nat)
      requires 0 < size < MAX_ULONG && 0 < bitmapSize
      ensures Valid() && fresh(mem) && Empty() && !fragmented && !bitmapFull
      ensures live == map[] && slot == map[] && poolSize == size && |used| == BITS * bitmapSize
      ensures accessRefcount == 0
    {
      mem, poolSize := new byte[size], size;
      vbase, accessRefcount := 0, 0;
      fragmented, bitmapFull := false, false;
      remain := size;
      words := seq(bitmapSize, _ => ZERO);
      entries := seq(BITS * bitmapSize, _ => Entry(0, 0, null));
      used, slot, live := seq(BITS * bitmapSize, _ => false), map[], map[];
      new;
      ZeroAgrees(bitmapSize);
      FreshTable(T(), size, mem[..]);
    }

    ghost function T(): Table<Owner?>
      reads this`used, this`entries
    {
      Table(used, entries)
    }

    /** Owner back-pointers are exact. */
    ghost predicate Tied()
      reads `slot, slot.Keys`pool, slot.Keys`id
    {
      forall o {:trigger slot[o]} :: o in slot ==> o != null && o.pool == this && o.id == slot[o]
    }

    ghost predicate Structure()
      reads `words, `used, `entries, `slot, `live, mem
    {
      && mem.Length == poolSize && 0 < poolSize < MAX_ULONG
      && |words| > 0 && Agrees(words, used) && |used| == |entries| == BITS * |words|
      && Layout(T(), poolSize) && Owned(T(), slot) && Holds(T(), slot, live, mem[..])
    }

    ghost predicate Flags()
      reads `used, `entries, `remain, `bitmapFull, `fragmented
    {
      && (!fragmented ==> exists k :: Packed(T(), k))
      && (!bitmapFull && remain > 0 ==> HasFree(T()))
    }

    ghost predicate Accounted()
      reads `used, `entries, `remain
      requires |used| == |entries|
    {
      remain == poolSize - Total(T()) && 0 <= remain
    }

    ghost predicate Valid()
      reads this, mem, slot.Keys
    {
      Structure() && Tied() && Accounted() && Flags()
    }

    /** The pool is open for access, at a page of the CPU's address space. */
    predicate Mapped()
      reads this`accessRefcount, this`vbase
    {
      accessRefcount > 0 && vbase % ALIGN == 0
    }

    function At(off: int): Ptr
      reads this
    {
      Ptr(mem, vbase, off)
    }

    /** `mem_pool_full` */
    predicate Full()
      reads this`remain, this`bitmapFull
    {
      remain == 0 || bitmapFull
    }

    /** `mem_pool_empty` */
    predicate Empty()
      reads this`remain
    {
      poolSize == remain
    }

    /** `mem_pool_has_space` */
    predicate HasSpace(size: int)
      reads this`remain, this`bitmapFull
    {
      !(size > remain || bitmapFull)
    }

    /** Where the handles lead */
    ghost function Offsets(): (r: map<Owner?, int>)
      reads this`slot, this`entries
    {
      map o | o in slot && slot[o] < |entries| :: entries[slot[o]].base
    }

    /** The handle resolves to an entry of this size at this offset. */
    ghost predicate Placed(o: Owner?, base: int, size: int)
      reads this`slot, this`used, this`entries
    {
      o in slot && T().Used(slot[o]) && |entries| == |used| && entries[slot[o]] == Entry(base, size, o)
    }

    /** `mem_pool_open_access`: the C code asserts that a nested access uses the same address. */
    method OpenAccess(base: int)
      requires accessRefcount > 0 ==> vbase == base
      modifies this`vbase, this`accessRefcount
      ensures vbase == base && accessRefcount == old(accessRefcount) + 1
      ensures old(Valid()) ==> Valid()
    {
      hide PoolContents.Holds, PoolContents.Owned, PoolLayout.Layout, Bitmap.Agrees, PoolLayout.Packed,
           PoolLayout.HasFree, PoolLayout.Total;
      accessRefcount := accessRefcount + 1;
      vbase := base;
    }

    /** `mem_pool_close_access` */
    method CloseAccess()
      requires accessRefcount > 0
      modifies this`vbase, this`accessRefcount
      ensures accessRefcount == old(accessRefcount) - 1 && (accessRefcount > 0 ==> vbase == old(vbase))
      ensures old(Valid()) ==> Valid()
    {
      hide PoolContents.Holds, PoolContents.Owned, PoolLayout.Layout, Bitmap.Agrees, PoolLayout.Packed,
           PoolLayout.HasFree, PoolLayout.Total;
      if accessRefcount == 1 {
        vbase := 0;
      }
      accessRefcount := accessRefcount - 1;
    }

    method SetBit(i: nat)
      requires Agrees(words, used) && i < |used|
      modifies this`words, this`used
      ensures Agrees(words, used) && used == old(used)[i := true] && |words| == old(|words|)
    {
      SetAgrees(words, used, i);
      words := words[i / BITS := Or(words[i / BITS], OneBit(i % BITS))];
      used := used[i := true];
    }

    method ClearBit(i: nat)
      requires Agrees(words, used) && i < |used|
      modifies this`words, this`used
      ensures Agrees(words, used) && used == old(used)[i := false] && |words| == old(|words|)
    {
      ClearAgrees(words, used, i);
      words := words[i / BITS := And(words[i / BITS], Not(OneBit(i % BITS)))];
      used := used[i := false];
    }
  }

  lemma FreshTable(t: Table<Owner?>, n: int, m: seq<byte>)
    requires |t.used| == |t.entries| && |t.used| > 0 && forall i :: 0 <= i < |t.used| ==> !t.used[i]
    ensures Layout(t, n) && Owned(t, map[]) && Holds(t, map[], map[], m) && Packed(t, 0) && HasFree(t) && Total(t) == 0
  {
    PackedTotal(t, 0);
    assert !t.used[0];
  }

  /** Distinct pools are mapped at distinct addresses. */
  ghost predicate MappedApart(p: Pool, q: Pool)
    reads p`vbase, q`vbase
  {
    && p.mem != q.mem
    && (p.vbase + p.mem.Length <= q.vbase || q.vbase + q.mem.Length <= p.vbase)
  }

  /** The data half of `migrate_entry`: nothing to do in place, memmove when the old and the new place
      overlap, the threaded memcpy otherwise. */
  method CopyData(to: Pool, from: Pool, newBase: nat, oldBase: nat, size: nat)
    requires to.Mapped() && from.Mapped() && (to != from ==> MappedApart(to, from))
    requires 0 < size && size % ALIGN == 0 && newBase % ALIGN == 0 && oldBase % ALIGN == 0
    requires newBase + size <= to.mem.Length && oldBase + size <= from.mem.Length
    modifies to.mem
    ensures Copied(to.mem[..], old(to.mem[..]), newBase, old(from.mem[..]), oldBase, size)
  {
    var dst, src := to.At(newBase), from.At(oldBase);
    if dst.Addr() != src.Addr() {
      var memMove := true;
      if dst.Addr() >= src.Addr() + size || src.Addr() >= dst.Addr() + size {
        memMove := false;
      }
      if memMove {
        CopyAligned(dst, src, size);
      } else {
        var nprocs: nat := *;
        CopyThreaded(dst, src, size, nprocs);
      }
    }
  }

  /** `move_entry` */
  method MoveEntry(from: Pool, to: Pool, fromIdx: nat, toIdx: nat)
    requires Agrees(from.words, from.used) && Agrees(to.words, to.used)
    requires |from.used| == |from.entries| && |to.used| == |to.entries|
    requires fromIdx < |from.used| && toIdx < |to.used| && from.entries[fromIdx].owner != null
    modifies from`words, from`used, to`words, to`used, to`entries, from.entries[fromIdx].owner
    ensures Agrees(from.words, from.used) && Agrees(to.words, to.used)
    ensures |from.words| == old(|from.words|) && |to.words| == old(|to.words|)
    ensures var o := old(from.entries[fromIdx].owner);
            if from == to && fromIdx == toIdx then
              to.used == old(to.used) && to.entries == old(to.entries) && o.pool == old(o.pool) && o.id == old(o.id)
            else
              && to.used == (if from == to then old(from.used)[fromIdx := false] else old(to.used))[toIdx := true]
              && (from != to ==> from.used == old(from.used)[fromIdx := false] && from.entries == old(from.entries))
              && to.entries == old(to.entries)[toIdx := old(from.entries[fromIdx])]
              && o.pool == to && o.id == toIdx
  {
    if from == to && fromIdx == toIdx {
      return;
    }
    from.ClearBit(fromIdx);
    to.SetBit(toIdx);
    to.entries := to.entries[toIdx := from.entries[fromIdx]];
    to.entries[toIdx].owner.pool := to;
    to.entries[toIdx].owner.id := toIdx;
  }

  /** `migrate_entry` with source and destination in one pool, as what it stores. */
  method RelocateWithin(pool: Pool, from: nat, to: nat, newBase: nat)
    requires Agrees(pool.words, pool.used) && |pool.used| == |pool.entries| && pool.Mapped()
    requires from < |pool.used| && to < |pool.used| && pool.entries[from].owner != null
    requires to == from || (pool.used[from] && !pool.used[to])
    requires var e := pool.entries[from];
             && 0 < e.size && e.size % ALIGN == 0 && newBase % ALIGN == 0 && e.base % ALIGN == 0 && 0 <= e.base
             && newBase + e.size <= pool.mem.Length && e.base + e.size <= pool.mem.Length
    modifies pool`words, pool`used, pool`entries, pool.mem, pool.entries[from].owner
    ensures Agrees(pool.words, pool.used) && |pool.words| == old(|pool.words|)
    ensures pool.used == if from == to then old(pool.used) else old(pool.used)[from := false][to := true]
    ensures pool.entries == old(pool.entries)[to := old(pool.entries[from]).(base := newBase)]
    ensures var o := old(pool.entries[from].owner);
            if from == to then o.pool == old(o.pool) && o.id == old(o.id) else o.pool == pool && o.id == to
    ensures Copied(pool.mem[..], old(pool.mem[..]), newBase, old(pool.mem[..]), old(pool.entries[from].base),
                   old(pool.entries[from].size))
  {
    var e := pool.entries[from];
    MoveEntry(pool, pool, from, to);
    CopyData(pool, pool, newBase, e.base, e.size);
    pool.entries := pool.entries[to := pool.entries[to].(base := newBase)];
  }

  lemma MovedIs(t: Table<Owner?>, used: seq<bool>, entries: seq<Entry<Owner?>>, from: nat, to: nat, newBase: int)
    requires t.Used(from) && |t.used| == |t.entries| && to < |t.used|
    requires used == if from == to then t.used else t.used[from := false][to := true]
    requires entries == t.entries[to := t.entries[from].(base := newBase)]
    ensures Table(used, entries) == Moved(t, from, to, newBase)
  {
  }

  /** `migrate_entry` within a pool: every handle keeps its bytes. */
  method MigrateWithin(pool: Pool, from: nat, to: nat, newBase: nat)
    requires pool.Structure() && pool.Tied() && pool.Mapped()
    requires pool.T().Used(from) && to < |pool.used| && (to == from || !pool.used[to])
    requires Layout(Moved(pool.T(), from, to, newBase), pool.poolSize)
    modifies pool`words, pool`used, pool`entries, pool`slot, pool.mem, pool.entries[from].owner
    ensures pool.Structure() && pool.Tied()
    ensures pool.T() == old(Moved(pool.T(), from, to, newBase))
    ensures |pool.words| == old(|pool.words|) && pool.slot.Keys == old(pool.slot.Keys)
  {
    hide PoolContents.Holds, PoolContents.Owned, PoolLayout.Layout, Bitmap.Agrees, VfpCopy.Copied, PoolContents.Moved;
    ghost var t, slot, m := pool.T(), pool.slot, pool.mem[..];
    OwnerOf(t, slot, from);
    ghost var o := pool.entries[from].owner;
    MigrateBounds(t, from, to, newBase, pool.poolSize);
    OwnedMove(t, slot, from, to, newBase);
    RelocateWithin(pool, from, to, newBase);
    MovedIs(t, pool.used, pool.entries, from, to, newBase);
    pool.slot := slot[o := to];
    HoldsMove(t, slot, pool.live, m, pool.mem[..], from, to, newBase);
  }

  lemma MigrateBounds(t: Table<Owner?>, from: nat, to: nat, newBase: int, n: int)
    requires Layout(t, n) && t.Used(from) && to < |t.used| && Layout(Moved(t, from, to, newBase), n)
    ensures EntryOk(t.entries[from], from, n) && EntryOk(t.entries[from].(base := newBase), to, n)
  {
    assert t.used[from] && Moved(t, from, to, newBase).used[to];
  }

  /** `migrate_entry` from one pool to another, as what it stores. */
  method RelocateAcross(from: Pool, to: Pool, fromIdx: nat, toIdx: nat, newBase: nat,
                        ghost slots: map<Owner?, nat>, ghost lives: map<Owner?, seq<byte>>)
    requires from != to && MappedApart(to, from) && from.Mapped() && to.Mapped()
    requires Agrees(from.words, from.used) && Agrees(to.words, to.used)
    requires |from.used| == |from.entries| && |to.used| == |to.entries|
    requires fromIdx < |from.used| && toIdx < |to.used| && from.entries[fromIdx].owner != null
    requires var e := from.entries[fromIdx];
             && 0 < e.size && e.size % ALIGN == 0 && newBase % ALIGN == 0 && e.base % ALIGN == 0 && 0 <= e.base
             && newBase + e.size <= to.mem.Length && e.base + e.size <= from.mem.Length
    modifies from`words, from`used, from`slot, from`live, to`words, to`used, to`entries, to`slot, to`live, to.mem,
             from.entries[fromIdx].owner
    ensures Agrees(from.words, from.used) && Agrees(to.words, to.used)
    ensures |from.words| == old(|from.words|) && |to.words| == old(|to.words|)
    ensures from.slot == old(from.slot - {from.entries[fromIdx].owner})
    ensures from.live == old(from.live - {from.entries[fromIdx].owner})
    ensures to.slot == slots && to.live == lives
    ensures from.used == old(from.used)[fromIdx := false] && from.entries == old(from.entries)
    ensures to.used == old(to.used)[toIdx := true]
    ensures to.entries == old(to.entries)[toIdx := old(from.entries[fromIdx]).(base := newBase)]
    ensures var o := old(from.entries[fromIdx].owner); o.pool == to && o.id == toIdx
    ensures Copied(to.mem[..], old(to.mem[..]), newBase, old(from.mem[..]), old(from.entries[fromIdx].base),
                   old(from.entries[fromIdx].size))
  {
    var e := from.entries[fromIdx];
    MoveEntry(from, to, fromIdx, toIdx);
    CopyData(to, from, newBase, e.base, e.size);
    to.entries := to.entries[toIdx := to.entries[toIdx].(base := newBase)];
    from.slot, from.live, to.slot, to.live := from.slot - {e.owner}, from.live - {e.owner}, slots, lives;
  }

  /** `migrate_entry` between pools: the handle takes its bytes along, and every other handle of both
      pools keeps its own. A placeholder in the target slot is overwritten. */
  method MigrateAcross(from: Pool, to: Pool, fromIdx: nat, toIdx: nat, newBase: nat)
    requires from != to && MappedApart(to, from) && from.Mapped() && to.Mapped()
    requires from.Structure() && from.Tied() && to.Structure() && to.Tied()
    requires from.T().Used(fromIdx) && |from.entries| == |from.used| && toIdx < |to.used| == |to.entries|
    requires Fits(Vacated(to.T(), toIdx), toIdx, from.entries[fromIdx].(base := newBase), to.poolSize)
    modifies from`words, from`used, from`slot, from`live, to`words, to`used, to`entries, to`slot, to`live, to.mem,
             from.entries[fromIdx].owner
    ensures from.Structure() && from.Tied() && to.Structure() && to.Tied()
    ensures |from.words| == old(|from.words|) && |to.words| == old(|to.words|)
    ensures var o := old(from.entries[fromIdx].owner);
            && o in old(from.live) && o !in old(to.slot)
            && from.T() == old(Clear(from.T(), fromIdx))
            && from.slot == old(from.slot) - {o} && from.live == old(from.live) - {o}
            && to.T() == old(Place(Vacated(to.T(), toIdx), toIdx, from.entries[fromIdx].(base := newBase)))
            && to.slot == old(Without(to.T(), to.slot, toIdx))[o := toIdx]
            && to.live == old(Without(to.T(), to.live, toIdx))[o := old(from.live)[o]]
  {
    hide PoolContents.Holds, PoolContents.Owned, PoolLayout.Layout, Bitmap.Agrees, VfpCopy.Copied,
         PoolContents.Without, PoolContents.Vacated, PoolLayout.Fits;
    ghost var t, slot, live, m := to.T(), to.slot, to.live, to.mem[..];
    ghost var f, e := from.T(), from.entries[fromIdx].(base := newBase);
    Departs(f, from.slot, from.live, from.mem[..], from.poolSize, fromIdx);
    LiveBytes(f, from.slot, from.live, from.mem[..], fromIdx, from.poolSize);
    FitsBounds(Vacated(t, toIdx), toIdx, e, to.poolSize);
    WithoutKeeps(t, slot, toIdx);
    ghost var s := from.mem[..];
    RelocateAcross(from, to, fromIdx, toIdx, newBase, Without(t, slot, toIdx)[e.owner := toIdx],
                   Without(t, live, toIdx)[e.owner := s[f.entries[fromIdx].base..f.entries[fromIdx].End()]]);
    Arrives(t, slot, live, m, to.mem[..], toIdx, e, s, f.entries[fromIdx].base);
  }

  lemma FitsBounds(t: Table<Owner?>, i: nat, e: Entry<Owner?>, n: int)
    requires |t.used| == |t.entries| && Fits(t, i, e, n)
    ensures EntryOk(e, i, n)
  {
  }

  lemma LiveBytes(t: Table<Owner?>, slot: map<Owner?, nat>, live: map<Owner?, seq<byte>>, m: seq<byte>, i: nat, n: int)
    requires Layout(t, n) && Owned(t, slot) && Holds(t, slot, live, m) && t.Used(i) && n == |m|
    ensures |t.used| == |t.entries| && EntryOk(t.entries[i], i, n) && InMemory(t.entries[i], m)
    ensures t.entries[i].owner in live && live[t.entries[i].owner] == m[t.entries[i].base..t.entries[i].End()]
  {
    assert t.used[i];
  }

  // ---- Allocation ---------------------------------------------------------------------------------

  /** `mem_pool_grow_bitmap`: one more word of slots, or nothing when memory for it is refused. `memory` says
      that it is granted; without this promise it may be granted or refused. */
  method GrowBitmap(pool: Pool, memory: bool) returns (ok: bool, ghost more: seq<Entry<Owner?>>)
    requires pool.Structure()
    modifies pool`words, pool`entries, pool`used
    ensures pool.Structure() && pool.T() == Grown(old(pool.T()), more)
    ensures |more| == if ok then BITS else 0
    ensures |pool.words| == old(|pool.words|) + if ok then 1 else 0
    ensures memory ==> ok
  {
    hide PoolContents.Holds, PoolContents.Owned, PoolLayout.Layout, Bitmap.Agrees;
    ghost var t := pool.T();
    ok := *;
    ok := ok || memory;
    if ok {
      more := seq(BITS, _ => Entry(0, 0, null));
      GrownOk(t, more, pool.poolSize);
      GrownContents(t, pool.slot, pool.live, pool.mem[..], more);
      GrowAgrees(pool.words, pool.used);
      pool.entries := pool.entries + seq(BITS, _ => Entry(0, 0, null));
      pool.words := pool.words + [ZERO];
      pool.used := pool.used + seq(BITS, _ => false);
    } else {
      more := [];
      assert pool.T() == Grown(t, []);
    }
  }

  /** The gap behind slot `e - 1`, up to the next used slot or the end of the pool; `start` is negative
      when it is too small. */
  method TryGap(pool: Pool, size: int, ghost b0: int, e: nat) returns (start: int, b: int)
    requires pool.Structure() && 0 < size && e < |pool.used| && -1 <= b0 && IsNext(pool.used, b0 + 1, false, e)
    requires (b0 >= 0 ==> pool.used[b0]) && TriedUpTo(pool.T(), pool.poolSize, size, b0)
    ensures IsNext(pool.used, e + 1, true, b)
    ensures start >= 0 ==> FirstFitAt(pool.T(), pool.poolSize, e, start, size)
    ensures start < 0 ==>
              && TriedUpTo(pool.T(), pool.poolSize, size, if b < 0 then |pool.used| - 1 else b)
              && (b < 0 ==> NoFit(pool.T(), pool.poolSize, size))
  {
    hide PoolContents.Holds, PoolContents.Owned, PoolLayout.Layout, Bitmap.Agrees, PoolLayout.Blocked,
         PoolLayout.TriedUpTo, PoolLayout.NoFit;
    start := if e == 0 then 0 else pool.entries[e - 1].base + pool.entries[e - 1].size;
    TriedTo(pool.T(), pool.poolSize, size, b0, e);
    b := NextUsed(pool.words, pool.used, e + 1);
    var end := if b < 0 then pool.poolSize else pool.entries[b].base;
    GapTest(pool.T(), pool.poolSize, size, e, b);
    if end - start < size {
      start := -1;
      TryNext(pool.T(), pool.poolSize, size, b0, e, b);
      if b < 0 { NoFitTried(pool.T(), pool.poolSize, size); }
    }
  }

  /** The search loop of `mem_pool_alloc`, starting behind slot `b0`: the first gap large enough, as
      its slot `e`, its offset `start` and the next used slot `b`; or -1 as `start`. */
  method FirstFit(pool: Pool, size: int, b0: int, memory: bool)
    returns (e: int, b: int, start: int, ghost more: seq<Entry<Owner?>>)
    requires pool.Structure() && 0 < size && !pool.bitmapFull
    requires -1 <= b0 < |pool.used| && (forall i :: 0 <= i <= b0 ==> pool.used[i])
    requires exists i :: b0 < i < |pool.used| && !pool.used[i]
    modifies pool`words, pool`entries, pool`used, pool`bitmapFull
    ensures pool.Structure() && pool.T() == Grown(old(pool.T()), more)
    ensures start >= 0 ==>
              && 0 <= e < |pool.used| && FirstFitAt(pool.T(), pool.poolSize, e, start, size)
              && IsNext(pool.used, e + 1, true, b) && !pool.bitmapFull
    ensures start < 0 ==> NoFit(pool.T(), pool.poolSize, size) || pool.bitmapFull
    ensures start < 0 ==> NoSlot(pool.T(), pool.poolSize, size)
    ensures pool.bitmapFull ==> !memory && start < 0 && LastUsed(pool.T())
    ensures more != [] || pool.bitmapFull ==> NoSlot(old(pool.T()), pool.poolSize, size) && LastUsed(old(pool.T()))
  {
    hide PoolContents.Holds, PoolContents.Owned, PoolLayout.Layout, Bitmap.Agrees, PoolLayout.Blocked,
         PoolLayout.TriedUpTo, PoolLayout.NoFit;
    ghost var t0 := pool.T();
    TriedStart(t0, pool.poolSize, size, b0);
    ghost var grown: bool, l: nat := false, 0;
    b, more := b0, [];
    while true
      invariant pool.Structure() && pool.T() == Grown(t0, more) && !pool.bitmapFull
      invariant -1 <= b < |pool.used| && TriedUpTo(pool.T(), pool.poolSize, size, b)
      invariant b >= 0 ==> pool.used[b]
      invariant if grown then NoSlot(t0, pool.poolSize, size) && LastUsed(t0) else more == []
      invariant b == b0 ==> exists i :: b0 < i < |pool.used| && !pool.used[i]
      invariant b > b0 ==> b > 0
      invariant grown ==> OnlyNewSlots(pool.T(), b, l)
      decreases if grown then 0 else 1, |pool.used| - b
    {
      e := NextUnused(pool.words, pool.used, b + 1);
      assert grown ==> e == l by {
        if grown { assert !pool.used[l]; }
      }
      start := -1;
      if e < 0 {
        ghost var t := pool.T();
        TriedAll(t, pool.poolSize, size, b);
        assert LastUsed(t);
        var ok, added := GrowBitmap(pool, memory);
        if !ok {
          assert pool.T() == t;
          pool.bitmapFull := true;
          return;
        }
        TriedGrown(t, pool.poolSize, size, b, added);
        more := more + added;
        grown, l := true, |t.used|;
      } else {
        start, b := TryGap(pool, size, b, e);
        if start >= 0 {
          return;
        }
      }
      if b <= 0 {
        return;
      }
    }
  }

  // ---- Defragmentation ----------------------------------------------------------------------------

  /** What defragmentation leaves behind slot `p`: nothing, or an unused slot with a gap of the size
      that was asked for. */
  ghost predicate Compacted(t: Table<Owner?>, n: int, p: int, needed: int)
    requires |t.used| == |t.entries|
  {
    && 0 <= p && Prefix(t, p + 1)
    && (Packed(t, p + 1) || (p + 1 < |t.used| && !t.used[p + 1] && !Blocked(t, n, p + 1, needed)))
  }

  /** The first used entries of `t0` have gone to the slots up to `p`; from slot `k` on nothing has changed. */
  ghost predicate Pushed(t0: Table<Owner?>, t: Table<Owner?>, p: int, k: nat) {
    && |t0.used| == |t0.entries| == |t.used| == |t.entries| && 0 <= p + 1 <= k <= |t.used|
    && Count(t0, k) == p + 1 && Sum(t0, k) == Tail(t, p + 1)
    && (forall i {:trigger t.used[i]} :: p < i < k ==> !t.used[i])
    && forall i {:trigger t.used[i]} {:trigger t.entries[i]} {:trigger t0.used[i]} :: k <= i < |t.used| ==>
         t.used[i] == t0.used[i] && t.entries[i] == t0.entries[i]
  }

  /** Of the entries that follow the first one, up to the one that goes to slot `p`, none has a gap of the size
      asked for before it when it is its turn, unless no slot is unused before it. */
  ghost predicate NoneOpen(t0: Table<Owner?>, p: int, needed: int)
    requires |t0.used| == |t0.entries|
  {
    forall b {:trigger t0.used[b]} :: 0 <= b < |t0.used| && t0.used[b] && 0 < Count(t0, b) <= p ==>
      t0.entries[b].base - Sum(t0, b) < needed || Count(t0, b) == b
  }

  lemma {:induction false} CountStill(t: Table<Owner?>, k: nat, b: nat)
    requires |t.used| == |t.entries| && k <= b <= |t.used|
    ensures Count(t, k) <= Count(t, b)
    ensures (forall i :: k <= i < b ==> !t.used[i]) ==> Count(t, b) == Count(t, k) && Sum(t, b) == Sum(t, k)
  {
    if b > k { CountStill(t, k, b - 1); }
  }

  /** The next used entry is the one of its number in `t0`. */
  lemma PushedNext(t0: Table<Owner?>, t: Table<Owner?>, p: int, k: nat, b: nat)
    requires Pushed(t0, t, p, k) && IsNext(t.used, p + 1, true, b)
    ensures k <= b < |t0.used| == |t0.entries| && t0.used[b] && t0.entries[b] == t.entries[b]
    ensures Count(t0, b) == p + 1 && Sum(t0, b) == Tail(t, p + 1)
    ensures Pushed(t0, Moved(t, b, p + 1, Tail(t, p + 1)), p + 1, b + 1)
  {
    assert t.used[b];
    forall i | k <= i < b ensures !t0.used[i] {
      assert !t.used[i];
    }
    CountStill(t0, k, b);
  }

  /** The next entry has no such gap before it. */
  lemma NoneOpenNext(t0: Table<Owner?>, p: int, b: nat, needed: int)
    requires |t0.used| == |t0.entries| && NoneOpen(t0, p, needed) && b < |t0.used| && t0.used[b]
    requires Count(t0, b) == p + 1 && (t0.entries[b].base - Sum(t0, b) < needed || b == p + 1)
    ensures NoneOpen(t0, p + 1, needed)
  {
    hide PoolLayout.Sum;
    forall i | 0 <= i < |t0.used| && t0.used[i] && 0 < Count(t0, i) <= p + 1 && i != b
      ensures Count(t0, i) <= p
    {
      CountAfter(t0, i, b, p);
    }
  }

  /** Two used entries have different numbers. */
  lemma CountAfter(t: Table<Owner?>, i: nat, b: nat, p: int)
    requires |t.used| == |t.entries| && i < |t.used| && b < |t.used| && t.used[i] && t.used[b] && i != b
    requires Count(t, b) == p + 1 && Count(t, i) <= p + 1
    ensures Count(t, i) <= p
  {
    if i < b {
      CountStill(t, i + 1, b);
    } else {
      CountStill(t, b + 1, i);
      assert Count(t, b + 1) == p + 2;
    }
  }

  /** One step of the compression loop: the next used entry moves down behind slot `p`. */
  method CompactOne(pool: Pool, p: int, b: nat)
    requires pool.Structure() && pool.Tied() && pool.Mapped() && pool.Accounted()
    requires -1 <= p && Prefix(pool.T(), p + 1) && IsNext(pool.used, p + 1, true, b)
    modifies pool`words, pool`used, pool`entries, pool`slot, pool.mem, pool.slot.Keys
    ensures pool.Structure() && pool.Tied() && pool.Accounted() && pool.slot.Keys == old(pool.slot.Keys)
    ensures Prefix(pool.T(), p + 2) && |pool.used| == old(|pool.used|)
    ensures |pool.used| == |pool.entries| && pool.T() == old(Moved(pool.T(), b, p + 1, Tail(pool.T(), p + 1)))
    ensures HasFree(pool.T()) == old(HasFree(pool.T()))
  {
    hide PoolContents.Holds, PoolContents.Owned, PoolLayout.Layout, Bitmap.Agrees, PoolLayout.Prefix,
         PoolLayout.HasFree, PoolContents.Moved;
    ghost var t := pool.T();
    Compacts(t, pool.poolSize, b, p + 1);
    OwnerOf(t, pool.slot, b);
    MovedTotal(t, b, p + 1, Tail(t, p + 1));
    FreeIsCounted(t);
    MigrateWithin(pool, b, p + 1, if p < 0 then 0 else pool.entries[p].base + pool.entries[p].size);
    FreeIsCounted(pool.T());
  }

  lemma NothingBehind(t: Table<Owner?>, n: int, p: int, needed: int)
    requires 0 <= p && Prefix(t, p + 1) && IsNext(t.used, p + 1, true, -1)
    ensures Packed(t, p + 1) && Compacted(t, n, p, needed)
  {
  }

  /** The early stop of the compression loop leaves a usable gap. */
  lemma EarlyStop(t: Table<Owner?>, n: int, p: int, b: nat, e: int, needed: int)
    requires Layout(t, n) && 0 <= p && Prefix(t, p + 1) && IsNext(t.used, p + 1, true, b) && HasFree(t)
    requires t.entries[b].base - Tail(t, p + 1) >= needed && IsNext(t.used, p, false, e) && e < b
    ensures Compacted(t, n, p, needed)
  {
    assert EntryOk(t.entries[b], b, n) && t.used[p];
    forall c | p + 1 < c < |t.used| && t.used[c] ensures t.entries[b].base <= t.entries[c].base {
      if c > b { assert t.entries[b].End() <= t.entries[c].base; }
    }
  }

  /** The compression loop of `defrag_pool`, once slot 0 is in place. */
  method Compress(pool: Pool, needed: int, ghost t0: Table<Owner?>, ghost k0: nat) returns (p: int, ghost k: nat)
    requires pool.Structure() && pool.Tied() && pool.Accounted() && pool.Mapped() && 0 < needed
    requires Prefix(pool.T(), 1) && (needed == MAX_ULONG || HasFree(pool.T())) && Pushed(t0, pool.T(), 0, k0)
    modifies pool`words, pool`used, pool`entries, pool`slot, pool.mem, pool.slot.Keys
    ensures pool.Structure() && pool.Tied() && pool.Accounted()
    ensures pool.slot.Keys == old(pool.slot.Keys) && |pool.used| == old(|pool.used|)
    ensures HasFree(pool.T()) == old(HasFree(pool.T()))
    ensures p >= 0 && Compacted(pool.T(), pool.poolSize, p, needed)
    ensures needed == MAX_ULONG ==> Packed(pool.T(), p + 1)
    ensures Pushed(t0, pool.T(), p, k) && |t0.used| == |t0.entries| && NoneOpen(t0, p, needed)
  {
    hide PoolContents.Holds, PoolContents.Owned, PoolLayout.Layout, Bitmap.Agrees, PoolLayout.HasFree,
         PoolLayout.Blocked, PoolLayout.Packed, Pushed, NoneOpen, PoolContents.Moved, PoolLayout.Sum, PoolLayout.Count;
    p, k := 0, k0;
    PushedSizes(t0, pool.T(), p, k, needed);
    while true
      invariant pool.Structure() && pool.Tied() && pool.Accounted() && pool.Mapped()
      invariant pool.slot.Keys == old(pool.slot.Keys) && |pool.used| == old(|pool.used|)
      invariant HasFree(pool.T()) == old(HasFree(pool.T()))
      invariant 0 <= p && Prefix(pool.T(), p + 1)
      invariant Pushed(t0, pool.T(), p, k) && |t0.used| == |t0.entries| && NoneOpen(t0, p, needed)
      decreases |pool.used| - p
    {
      var b := NextUsed(pool.words, pool.used, p + 1);
      if b == -1 {
        NothingBehind(pool.T(), pool.poolSize, p, needed);
        return;
      }
      var end := pool.entries[p].base + pool.entries[p].size;
      GapBelowMax(pool.T(), pool.poolSize, p, b);
      PushedNext(t0, pool.T(), p, k, b);
      if pool.entries[b].base - end >= needed {
        var e := NextUnused(pool.words, pool.used, p);
        if e < b {
          EarlyStop(pool.T(), pool.poolSize, p, b, e, needed);
          return;
        }
        NextInPlace(pool.used, p, b, e);
      }
      NoneOpenNext(t0, p, b, needed);
      CompactOne(pool, p, b);
      p, k := p + 1, b + 1;
    }
  }

  lemma PushedSizes(t0: Table<Owner?>, t: Table<Owner?>, p: int, k: nat, needed: int)
    requires Pushed(t0, t, p, k)
    ensures |t0.used| == |t0.entries| && (p == 0 ==> NoneOpen(t0, 0, needed))
  {
  }

  /** Before the first step, and when slot 0 is in place already */
  lemma PushedStart(t: Table<Owner?>, n: int)
    requires Layout(t, n)
    ensures Pushed(t, t, -1, 0) && (|t.used| > 0 && t.used[0] ==> Pushed(t, t, 0, 1))
  {
    if |t.used| > 0 && t.used[0] {
      assert EntryOk(t.entries[0], 0, n) && Count(t, 1) == 1 && Sum(t, 1) == t.entries[0].size;
    }
  }

  lemma NextInPlace(used: seq<bool>, p: nat, b: nat, e: int)
    requires IsNext(used, p + 1, true, b) && IsNext(used, p, false, e) && e >= b
    ensures b == p + 1
  {
    var next := used[p + 1];
    assert b > p + 1 ==> !next;
  }

  lemma GapBelowMax(t: Table<Owner?>, n: int, p: int, b: nat)
    requires Layout(t, n) && n < MAX_ULONG && 0 <= p && Prefix(t, p + 1) && b < |t.used| && t.used[b]
    ensures t.entries[b].base - t.entries[p].End() < MAX_ULONG
  {
    assert EntryOk(t.entries[b], b, n) && t.used[p] && EntryOk(t.entries[p], p, n);
  }

  /** A pool that is not fragmented is packed up to its first unused slot. */
  lemma PackedUpTo(t: Table<Owner?>, e: int)
    requires (exists k :: Packed(t, k)) && IsNext(t.used, 0, false, e) && HasFree(t)
    requires exists i :: 0 <= i < |t.used| && t.used[i]
    ensures e > 0 && Packed(t, e)
  {
    var k :| Packed(t, k);
    assert e >= k;
  }

  lemma PackedWhenFull(t: Table<Owner?>, n: int, p: int, needed: int)
    requires |t.used| == |t.entries| && Compacted(t, n, p, needed) && IsNext(t.used, p + 1, false, -1)
    ensures Packed(t, p + 1)
  {
  }

  lemma NoneUnused(t: Table<Owner?>, n: int, p: int, needed: int, e: int)
    requires |t.used| == |t.entries| && Compacted(t, n, p, needed) && IsNext(t.used, p + 1, false, e)
    ensures e == -1 <==> !HasFree(t)
  {
    if e == -1 { assert forall i {:trigger t.used[i]} :: 0 <= i <= p ==> t.used[i]; } else { assert !t.used[e]; }
  }

  /** `defrag_pool` on a fragmented pool. The flag goes only if no slot is left unused. */
  method DefragFragmented(pool: Pool, needed: int) returns (p: int)
    requires pool.Structure() && pool.Tied() && pool.Accounted() && pool.Mapped() && 0 < needed
    requires exists i :: 0 <= i < |pool.used| && pool.used[i]
    requires pool.fragmented && (needed == MAX_ULONG || HasFree(pool.T()))
    modifies pool`words, pool`used, pool`entries, pool`slot, pool`fragmented, pool.mem, pool.slot.Keys
    ensures pool.Structure() && pool.Tied() && pool.Accounted()
    ensures pool.slot.Keys == old(pool.slot.Keys) && |pool.used| == old(|pool.used|)
    ensures HasFree(pool.T()) == old(HasFree(pool.T()))
    ensures p >= 0 && Compacted(pool.T(), pool.poolSize, p, needed)
    ensures needed == MAX_ULONG || !pool.fragmented ==> Packed(pool.T(), p + 1)
    ensures pool.fragmented <==> HasFree(pool.T())
    ensures old(|pool.used| == |pool.entries|) && NoneOpen(old(pool.T()), p, needed)
    ensures exists k: nat :: Pushed(old(pool.T()), pool.T(), p, k)
  {
    hide PoolContents.Holds, PoolContents.Owned, PoolLayout.Layout, Bitmap.Agrees, PoolLayout.Prefix,
         PoolLayout.Blocked, PoolLayout.Packed, PoolLayout.HasFree, Bitmap.IsNext, Compacted, PoolLayout.Total, Pushed,
         NoneOpen, PoolContents.Moved;
    FirstBit(pool.words, pool.used);
    ghost var t0, k := pool.T(), 1;
    PushedStart(t0, pool.poolSize);
    if !pool.words[0][0] {
      var b := NextUsed(pool.words, pool.used, 1);
      SlotZero(pool.T(), b);
      PushedNext(t0, t0, -1, 0, b);
      CompactOne(pool, -1, b);
      k := b + 1;
    } else {
      SlotZeroUsed(pool.T(), pool.poolSize);
    }
    p, k := Compress(pool, needed, t0, k);
    var e := NextUnused(pool.words, pool.used, p + 1);
    NoneUnused(pool.T(), pool.poolSize, p, needed, e);
    if e == -1 {
      PackedWhenFull(pool.T(), pool.poolSize, p, needed);
      pool.fragmented := false;
    }
  }

  /** `defrag_pool`: no handle and no byte of live data is lost, space is conserved, and behind the
      returned slot there is nothing or a gap of the size asked for. */
  method DefragPool(pool: Pool, needed: int, retLastBusy: bool) returns (p: int)
    requires pool.Valid() && pool.Mapped() && 0 < needed
    requires exists i :: 0 <= i < |pool.used| && pool.used[i]
    requires needed == MAX_ULONG || HasFree(pool.T())
    modifies pool`words, pool`used, pool`entries, pool`slot, pool`fragmented, pool.mem, pool.slot.Keys
    ensures pool.Valid() && pool.slot.Keys == old(pool.slot.Keys) && |pool.used| == old(|pool.used|)
    ensures HasFree(pool.T()) == old(HasFree(pool.T()))
    ensures retLastBusy && !pool.Full() ==> p >= 0 && Compacted(pool.T(), pool.poolSize, p, needed)
    ensures needed == MAX_ULONG ==> exists k :: Packed(pool.T(), k)
    ensures pool.fragmented <==> old(pool.fragmented) && HasFree(pool.T())
    ensures if old(pool.fragmented) then
              && old(|pool.used| == |pool.entries|) && NoneOpen(old(pool.T()), p, needed)
              && exists k: nat :: Pushed(old(pool.T()), pool.T(), p, k)
            else pool.T() == old(pool.T())
    ensures retLastBusy && !pool.Full() && needed == MAX_ULONG ==> Packed(pool.T(), p + 1)
  {
    hide PoolContents.Holds, PoolContents.Owned, PoolLayout.Layout, Bitmap.Agrees, PoolLayout.Prefix,
         PoolLayout.Blocked, PoolLayout.Packed, PoolLayout.HasFree, Bitmap.IsNext, Compacted, PoolLayout.Total, Pushed,
         NoneOpen;
    p := 0;
    if pool.fragmented {
      p := DefragFragmented(pool, needed);
    } else if retLastBusy {
      if pool.Full() {
        p := -1;
      } else {
        p := NextUnused(pool.words, pool.used, 0);
        PackedUpTo(pool.T(), p);
        p := p - 1;
        PackedIsCompacted(pool.T(), pool.poolSize, p, needed);
      }
    }
  }

  lemma PackedIsCompacted(t: Table<Owner?>, n: int, p: int, needed: int)
    requires 0 <= p && Packed(t, p + 1)
    ensures Compacted(t, n, p, needed)
  {
  }

  lemma SlotZero(t: Table<Owner?>, b: int)
    requires |t.used| == |t.entries| > 0 && !t.used[0] && IsNext(t.used, 1, true, b)
    requires exists i :: 0 <= i < |t.used| && t.used[i]
    ensures b > 0 && IsNext(t.used, 0, true, b) && Prefix(t, 0)
  {
  }

  lemma SlotZeroUsed(t: Table<Owner?>, n: int)
    requires Layout(t, n) && |t.used| > 0 && t.used[0]
    ensures Prefix(t, 1)
  {
    assert EntryOk(t.entries[0], 0, n);
  }

  // ---- mem_pool_alloc and mem_pool_free -----------------------------------------------------------

  /** The slot that first-fit found becomes the new entry. */
  method Install(pool: Pool, e: nat, start: int, size: int, owner: Owner)
    requires pool.Structure() && pool.Tied() && owner !in pool.slot
    requires e < |pool.used| && !pool.used[e] && Fits(pool.T(), e, Entry(start, size, owner), pool.poolSize)
    modifies pool`words, pool`used, pool`entries, pool`slot, pool`live, pool`remain, owner
    ensures pool.Structure() && pool.Tied() && 0 <= start && start + size <= pool.mem.Length
    ensures pool.T() == Place(old(pool.T()), e, Entry(start, size, owner)) && |pool.words| == old(|pool.words|)
    ensures pool.slot == old(pool.slot)[owner := e]
    ensures pool.live == old(pool.live)[owner := pool.mem[start..start + size]]
    ensures pool.remain == old(pool.remain) - size
  {
    hide PoolContents.Holds, PoolContents.Owned, PoolLayout.Layout, Bitmap.Agrees, PoolLayout.Fits;
    ghost var t, x := pool.T(), Entry(start, size, owner);
    FitsBounds(t, e, x, pool.poolSize);
    PlaceOk(t, e, x, pool.poolSize);
    OwnedPlace(t, pool.slot, e, x);
    HoldsPlace(t, pool.slot, pool.live, pool.mem[..], e, x);
    pool.entries := pool.entries[e := Entry(start, size, owner)];
    pool.SetBit(e);
    pool.slot, pool.live := pool.slot[owner := e], pool.live[owner := pool.mem[..][start..start + size]];
    pool.remain := pool.remain - size;
    owner.pool, owner.id := pool, e;
  }

  /** After a successful allocation the bitmap must offer another slot, or it counts as full. */
  method KeepSlotFree(pool: Pool, b: int, memory: bool) returns (ghost more: seq<Entry<Owner?>>)
    requires pool.Structure() && -1 <= b < |pool.used| && (b >= 0 ==> pool.used[b]) && !pool.bitmapFull
    modifies pool`words, pool`entries, pool`used, pool`bitmapFull
    ensures pool.Structure() && pool.T() == Grown(old(pool.T()), more)
    ensures !pool.bitmapFull ==> HasFree(pool.T())
    ensures pool.bitmapFull && b < 0 ==> !HasFree(pool.T())
    ensures pool.bitmapFull ==> !memory && LastUsed(pool.T())
  {
    hide PoolContents.Holds, PoolContents.Owned, PoolLayout.Layout, Bitmap.Agrees;
    ghost var t := pool.T();
    var e := NextUnused(pool.words, pool.used, b + 1);
    pool.bitmapFull := e < 0;
    more := [];
    assert t == Grown(t, []);
    if pool.bitmapFull {
      var ok;
      ok, more := GrowBitmap(pool, memory);
      GrownFree(t, more);
      pool.bitmapFull := !ok;
    }
  }

  lemma GrownFree(t: Table<Owner?>, more: seq<Entry<Owner?>>)
    ensures |more| > 0 ==> HasFree(Grown(t, more))
    ensures |more| == 0 ==> (HasFree(Grown(t, more)) <==> HasFree(t))
  {
    var t' := Grown(t, more);
    if |more| > 0 { assert !t'.used[|t.used|]; } else { assert t'.used == t.used; }
  }

  /** One pass of `mem_pool_alloc` from its `retry` label: search behind slot `b0` and, if a gap was
      found, take it. */
  method Attempt(pool: Pool, size: int, owner: Owner, b0: int, memory: bool)
    returns (r: int, ghost m1: seq<Entry<Owner?>>, ghost m2: seq<Entry<Owner?>>)
    requires pool.Valid() && owner !in pool.slot && 0 < size && size % ALIGN == 0 && !pool.bitmapFull
    requires -1 <= b0 < |pool.used| && (forall i :: 0 <= i <= b0 ==> pool.used[i])
    requires (exists i :: b0 < i < |pool.used| && !pool.used[i]) && size <= pool.remain
    modifies pool`words, pool`used, pool`entries, pool`slot, pool`live, pool`remain, pool`bitmapFull, owner
    ensures pool.Valid() && (pool.bitmapFull ==> !memory && LastUsed(pool.T()))
    ensures m1 != [] || r < 0 ==> NoSlot(old(pool.T()), pool.poolSize, size)
    ensures r < 0 && pool.bitmapFull ==> LastUsed(old(pool.T()))
    ensures r >= 0 ==>
              && owner in pool.slot && pool.slot.Keys == old(pool.slot.Keys) + {owner} && r + size <= pool.poolSize
              && pool.live == old(pool.live)[owner := pool.mem[..][r..r + size]]
              && pool.remain == old(pool.remain) - size
              && pool.slot[owner] < old(|pool.used|) + |m1|
              && FirstFitAt(Grown(old(pool.T()), m1), pool.poolSize, pool.slot[owner], r, size)
              && pool.T() == AfterAlloc(old(pool.T()), m1, pool.slot[owner], Entry(r, size, owner), m2)
              && (pool.bitmapFull && (exists k :: Packed(old(pool.T()), k)) ==> !HasFree(pool.T()))
    ensures r < 0 ==>
              && pool.slot == old(pool.slot) && pool.live == old(pool.live) && pool.remain == old(pool.remain)
              && owner.pool == old(owner.pool) && owner.id == old(owner.id)
              && pool.T() == Grown(old(pool.T()), m1)
              && NoSlot(pool.T(), pool.poolSize, size)
              && (NoFit(pool.T(), pool.poolSize, size) || pool.bitmapFull)
  {
    hide PoolContents.Holds, PoolContents.Owned, PoolLayout.Layout, Bitmap.Agrees, PoolLayout.Blocked,
         PoolLayout.TriedUpTo, PoolLayout.NoFit, PoolLayout.Fits, PoolLayout.Packed, PoolLayout.HasFree,
         PoolLayout.FirstFitAt, Bitmap.IsNext, PoolLayout.Head, PoolLayout.NoSlot, PoolLayout.LastUsed;
    ghost var t, n := pool.T(), pool.poolSize;
    var e, b;
    m2 := [];
    e, b, r, m1 := FirstFit(pool, size, b0, memory);
    if r >= 0 {
      ghost var x: Entry<Owner?>, g := Entry(r, size, owner), pool.T();
      FirstFitFits(g, n, e, x);
      PackedNoNext(t, n, m1, e, x, b);
      NextStays(g.used, e, b);
      Install(pool, e, r, size, owner);
      m2 := KeepSlotFree(pool, b, memory);
      AllocTotal(t, n, m1, e, x, m2);
      KeepsPacked(t, n, m1, e, x, m2);
    } else {
      assert m1 == [] ==> Grown(t, m1) == t;
      GrownOk(t, m1, n);
      GrowsPacked(t, m1);
      GrownFree(t, m1);
    }
  }

  lemma NextStays(used: seq<bool>, e: nat, b: int)
    requires e < |used| && IsNext(used, e + 1, true, b)
    ensures -1 <= b < |used| && (b >= 0 ==> used[e := true][b])
  {
  }

  lemma PackedNoNext(t: Table<Owner?>, n: int, m1: seq<Entry<Owner?>>, e: nat, x: Entry<Owner?>, b: int)
    requires |t.used| == |t.entries| && FirstFitAt(Grown(t, m1), n, e, x.base, x.size)
    requires IsNext(Grown(t, m1).used, e + 1, true, b)
    ensures (exists k :: Packed(t, k)) ==> b < 0
    ensures -1 <= b
  {
    if k :| Packed(t, k) {
      PackedGrown(t, k, m1);
      PackedPlace(Grown(t, m1), k, e, x);
    }
  }

  lemma KeepsPacked(t: Table<Owner?>, n: int, m1: seq<Entry<Owner?>>, e: nat, x: Entry<Owner?>, m2: seq<Entry<Owner?>>)
    requires |t.used| == |t.entries| && FirstFitAt(Grown(t, m1), n, e, x.base, x.size)
    ensures (exists k :: Packed(t, k)) ==> exists k :: Packed(AfterAlloc(t, m1, e, x, m2), k)
  {
    if k :| Packed(t, k) { AllocPacked(t, n, k, m1, e, x, m2); }
  }

  lemma GrowsPacked(t: Table<Owner?>, m1: seq<Entry<Owner?>>)
    ensures (exists k :: Packed(t, k)) ==> exists k :: Packed(Grown(t, m1), k)
  {
    if k :| Packed(t, k) { PackedGrown(t, k, m1); }
  }

  /** `mem_pool_alloc` first tries to grow a bitmap that counts as full. */
  method OpenBitmap(pool: Pool, memory: bool) returns (ghost m0: seq<Entry<Owner?>>)
    requires pool.Valid()
    modifies pool`words, pool`entries, pool`used, pool`bitmapFull
    ensures pool.Valid() && pool.T() == Grown(old(pool.T()), m0)
    ensures pool.bitmapFull ==> old(pool.bitmapFull) && !memory
    ensures if old(pool.bitmapFull) && !pool.bitmapFull then |m0| == BITS else m0 == []
  {
    hide PoolContents.Holds, PoolContents.Owned, PoolLayout.Layout, Bitmap.Agrees, PoolLayout.Packed,
         PoolLayout.HasFree, PoolLayout.Total, Pool.Tied;
    ghost var t := pool.T();
    m0 := [];
    assert t == Grown(t, []);
    if pool.bitmapFull {
      var ok;
      ok, m0 := GrowBitmap(pool, memory);
      GrownOk(t, m0, pool.poolSize);
      GrowsPacked(t, m0);
      pool.bitmapFull := !ok;
      assert !pool.fragmented ==> exists k :: Packed(pool.T(), k);
      assert pool.Flags();
    }
  }

  /** Defragmentation leaves an open gap for the request that asked for it. */
  lemma CompactedOpen(t: Table<Owner?>, n: int, p: int, size: int)
    requires Layout(t, n) && Compacted(t, n, p, size) && HasFree(t) && size <= n - Total(t)
    ensures p + 1 < |t.used| && !t.used[p + 1] && Head(t, p + 1) && !Blocked(t, n, p + 1, size)
    ensures forall i :: 0 <= i <= p ==> t.used[i]
  {
    assert t.used[p];
    if Packed(t, p + 1) { PackedFits(t, n, p + 1, size); }
  }

  /** The second pass of `mem_pool_alloc`: defragment and search behind the compacted entries. With
      enough free space in total it always succeeds. */
  method DefragAndRetry(pool: Pool, size: int, owner: Owner, memory: bool) returns (r: int)
    requires pool.Valid() && owner !in pool.slot && 0 < size && size % ALIGN == 0 && !pool.bitmapFull
    requires pool.Mapped() && size <= pool.remain && NoSlot(pool.T(), pool.poolSize, size)
    modifies pool`words, pool`used, pool`entries, pool`slot, pool`live, pool`remain, pool`bitmapFull,
             pool`fragmented, pool.mem, pool.slot.Keys, owner
    ensures pool.Valid() && r >= 0 && (pool.bitmapFull ==> !memory && LastUsed(pool.T()))
    ensures |pool.used| >= old(|pool.used|)
    ensures owner in pool.slot && pool.slot.Keys == old(pool.slot.Keys) + {owner} && r + size <= pool.poolSize
    ensures pool.live == old(pool.live)[owner := pool.mem[..][r..r + size]]
    ensures pool.remain == old(pool.remain) - size
    ensures pool.Placed(owner, r, size)
  {
    hide PoolContents.Holds, PoolContents.Owned, PoolLayout.Layout, Bitmap.Agrees, PoolLayout.Blocked,
         PoolLayout.TriedUpTo, PoolLayout.NoFit, PoolLayout.Packed, PoolLayout.HasFree, PoolLayout.FirstFitAt,
         PoolLayout.Head, PoolLayout.Total, Compacted, Pushed, NoneOpen;
    TriedNonEmpty(pool.T(), pool.poolSize, size);
    var p := DefragPool(pool, size, true);
    ghost var t := pool.T();
    CompactedOpen(t, pool.poolSize, p, size);
    ghost var m1, m2;
    r, m1, m2 := Attempt(pool, size, owner, p, memory);
    OpenIsFound(t, pool.poolSize, size, p + 1, m1);
    if r >= 0 { AllocEntry(t, m1, pool.slot[owner], Entry(r, size, owner), m2); }
  }

  lemma AllocEntry(t: Table<Owner?>, m1: seq<Entry<Owner?>>, e: nat, x: Entry<Owner?>, m2: seq<Entry<Owner?>>)
    requires |t.used| == |t.entries| && e < |t.used| + |m1|
    ensures AfterAlloc(t, m1, e, x, m2).Used(e) && AfterAlloc(t, m1, e, x, m2).entries[e] == x
  {
  }

  /** An allocation without defragmentation leaves every other handle where it was. */
  lemma OthersStay(t: Table<Owner?>, n: int, slot: map<Owner?, nat>, t': Table<Owner?>, slot': map<Owner?, nat>,
                   o: Owner?, m1: seq<Entry<Owner?>>, e: nat, x: Entry<Owner?>, m2: seq<Entry<Owner?>>)
    requires Owned(t, slot) && Owned(t', slot') && o in slot && e < |t.used| + |m1|
    requires t' == Grown(t, m1) || (FirstFitAt(Grown(t, m1), n, e, x.base, x.size) && t' == AfterAlloc(t, m1, e, x, m2))
    ensures o in slot' && slot'[o] == slot[o] < |t.entries| <= |t'.entries| && t'.entries[slot[o]] == t.entries[slot[o]]
  {
    assert t.Used(slot[o]) && t.entries[slot[o]].owner == o;
    assert t'.used[slot[o]];
  }

  lemma ValidTable(p: Pool)
    requires p.Valid()
    ensures |p.used| == |p.entries| && Layout(p.T(), p.poolSize) && 0 <= p.remain == p.poolSize - Total(p.T())
    ensures p.Flags()
  {
  }

  /** A gap that has a slot is large enough. */
  ghost predicate Direct(pool: Pool, size: int)
    reads pool`used, pool`entries, pool`remain, pool`bitmapFull
  {
    && |pool.used| == |pool.entries| && !pool.bitmapFull && size <= pool.remain
    && !NoSlot(pool.T(), pool.poolSize, size)
  }

  /** The search before anything is moved, which is all there is without defragmentation */
  method AllocStill(pool: Pool, size: int, owner: Owner, memory: bool)
    returns (r: int, ghost m1: seq<Entry<Owner?>>, ghost m2: seq<Entry<Owner?>>)
    requires pool.Valid() && owner !in pool.slot && 0 < size && size % ALIGN == 0
    modifies pool`words, pool`used, pool`entries, pool`slot, pool`live, pool`remain, pool`bitmapFull, owner
    ensures pool.Valid()
    ensures r >= 0 ==>
              && owner in pool.slot && pool.slot.Keys == old(pool.slot.Keys) + {owner} && r + size <= pool.poolSize
              && pool.live == old(pool.live)[owner := pool.mem[..][r..r + size]]
              && pool.remain == old(pool.remain) - size && pool.Placed(owner, r, size)
              && pool.slot[owner] < old(|pool.used|) + |m1|
              && FirstFitAt(Grown(old(pool.T()), m1), pool.poolSize, pool.slot[owner], r, size)
              && pool.T() == AfterAlloc(old(pool.T()), m1, pool.slot[owner], Entry(r, size, owner), m2)
              && (pool.bitmapFull && (exists k :: Packed(old(pool.T()), k)) ==> !HasFree(pool.T()))
    ensures r < 0 ==>
              && pool.slot == old(pool.slot) && pool.live == old(pool.live) && pool.remain == old(pool.remain)
              && owner.pool == old(owner.pool) && owner.id == old(owner.id) && pool.T() == Grown(old(pool.T()), m1)
              && (memory ==> NoFit(pool.T(), pool.poolSize, size))
              && (NoSlot(pool.T(), pool.poolSize, size) || pool.bitmapFull)
    ensures old(Direct(pool, size)) ==> r >= 0 && m1 == []
    ensures r < 0 && size <= pool.remain && pool.bitmapFull ==>
              && !memory
              && (old(pool.bitmapFull) || (NoSlot(old(pool.T()), pool.poolSize, size) && LastUsed(old(pool.T()))))
    ensures r < 0 && !pool.bitmapFull && size <= pool.remain && !old(pool.bitmapFull) ==>
              NoSlot(old(pool.T()), pool.poolSize, size)
    ensures pool.bitmapFull ==>
              (old(pool.bitmapFull) && pool.T() == old(pool.T())) || (!memory && LastUsed(pool.T()))
    ensures old(pool.bitmapFull) && !pool.bitmapFull ==> |pool.used| > old(|pool.used|)
    ensures !old(pool.fragmented) && !old(pool.bitmapFull) && size <= old(pool.remain) ==> r >= 0
  {
    hide PoolContents.Holds, PoolContents.Owned, PoolLayout.Layout, Bitmap.Agrees, PoolLayout.Blocked,
         PoolLayout.TriedUpTo, PoolLayout.NoFit, PoolLayout.Packed, PoolLayout.HasFree, PoolLayout.FirstFitAt,
         PoolLayout.Head, PoolLayout.Total, PoolLayout.LastUsed, Pool.Valid;
    ghost var t := pool.T();
    ValidTable(pool);
    m1, m2 := [], [];
    assert t == Grown(t, []);
    if size > pool.remain {
      TooLarge(t, pool.poolSize, size);
      NoFitTried(t, pool.poolSize, size);
      return -1, m1, m2;
    }
    m1 := OpenBitmap(pool, memory);
    if pool.bitmapFull {
      return -1, m1, m2;
    }
    ValidTable(pool);
    ghost var g, m := pool.T(), [];
    GrowsPacked(t, m1);
    FreeSlotExists(g);
    r, m, m2 := Attempt(pool, size, owner, -1, memory);
    GrownTwice(t, m1, m);
    if r >= 0 {
      AllocEntry(g, m, pool.slot[owner], Entry(r, size, owner), m2);
    } else {
      UnfragmentedFits(g, pool.poolSize, size, m);
    }
    m1 := m1 + m;
  }

  /** `mem_pool_alloc`

      With defragmentation and memory for the bitmap it fails only for lack of space. Without memory it
      needs a slot: it fails only if the bitmap counts as full, or if no gap that has a slot is large enough
      and no slot follows the last entry. Without defragmentation it also fails when no gap is large enough,
      and no byte is moved; nor is one moved if a gap that has a slot is large enough. In a pool that is not
      fragmented it fails in neither form while there is space and the bitmap is not full. */
  method Alloc(pool: Pool, size: int, owner: Owner, defrag: bool, memory: bool)
    returns (r: int, ghost m1: seq<Entry<Owner?>>, ghost m2: seq<Entry<Owner?>>)
    requires pool.Valid() && owner !in pool.slot && 0 < size && size % ALIGN == 0
    requires defrag ==> pool.Mapped()
    modifies pool`words, pool`used, pool`entries, pool`slot, pool`live, pool`remain, pool`bitmapFull,
             pool`fragmented, pool.mem, pool.slot.Keys, owner
    ensures pool.Valid()
    ensures r >= 0 ==>
              && owner in pool.slot && pool.slot.Keys == old(pool.slot.Keys) + {owner} && r + size <= pool.poolSize
              && pool.live == old(pool.live)[owner := pool.mem[..][r..r + size]]
              && pool.remain == old(pool.remain) - size && pool.Placed(owner, r, size)
    ensures r < 0 ==>
              && pool.slot.Keys == old(pool.slot.Keys) && pool.live == old(pool.live) && pool.remain == old(pool.remain)
              && owner.pool == old(owner.pool) && owner.id == old(owner.id)
    ensures defrag && memory && size <= old(pool.remain) ==> r >= 0
    ensures defrag && r < 0 && size <= old(pool.remain) ==> pool.bitmapFull
    ensures r < 0 && size <= old(pool.remain) && pool.bitmapFull ==>
              && !memory
              && (old(pool.bitmapFull) || (NoSlot(old(pool.T()), pool.poolSize, size) && LastUsed(old(pool.T()))))
    ensures old(Direct(pool, size)) ==> r >= 0 && m1 == []
    ensures pool.bitmapFull ==>
              (old(pool.bitmapFull) && pool.T() == old(pool.T())) || (!memory && LastUsed(pool.T()))
    ensures old(pool.bitmapFull) && !pool.bitmapFull ==> |pool.used| > old(|pool.used|)
    ensures !old(pool.fragmented) && !old(pool.bitmapFull) && size <= old(pool.remain) ==> r >= 0
    ensures var direct := !defrag || old(Direct(pool, size));
            direct ==> pool.mem[..] == old(pool.mem[..]) && pool.fragmented == old(pool.fragmented)
    ensures var direct := !defrag || old(Direct(pool, size));
            direct && r >= 0 ==>
              && pool.slot[owner] < old(|pool.used|) + |m1|
              && FirstFitAt(Grown(old(pool.T()), m1), pool.poolSize, pool.slot[owner], r, size)
              && pool.T() == AfterAlloc(old(pool.T()), m1, pool.slot[owner], Entry(r, size, owner), m2)
              && (pool.bitmapFull && (exists k :: Packed(old(pool.T()), k)) ==> !HasFree(pool.T()))
    ensures !defrag && r < 0 ==>
              && pool.T() == Grown(old(pool.T()), m1)
              && (memory ==> NoFit(pool.T(), pool.poolSize, size))
              && (NoSlot(pool.T(), pool.poolSize, size) || pool.bitmapFull)
  {
    hide PoolContents.Holds, PoolContents.Owned, PoolLayout.Layout, Bitmap.Agrees, PoolLayout.NoSlot, PoolLayout.NoFit,
         PoolLayout.Packed, PoolLayout.HasFree, PoolLayout.FirstFitAt, PoolLayout.LastUsed, Pool.Valid, Direct,
         Pool.Placed, PoolLayout.AfterAlloc, PoolLayout.Grown;
    ValidTable(pool);
    r, m1, m2 := AllocStill(pool, size, owner, memory);
    if r < 0 && size <= pool.remain && defrag && !pool.bitmapFull {
      r := DefragAndRetry(pool, size, owner, memory);
    }
  }

  lemma FreeSlotExists(t: Table<Owner?>)
    requires HasFree(t)
    ensures exists i :: -1 < i < |t.used| && !t.used[i]
  {
  }

  lemma UnfragmentedFits(t: Table<Owner?>, n: int, size: int, more: seq<Entry<Owner?>>)
    requires Layout(t, n) && HasFree(t) && size <= n - Total(t)
    requires NoSlot(Grown(t, more), n, size)
    ensures !exists k :: Packed(t, k)
  {
    forall k | Packed(t, k) ensures false {
      PackedIsFound(t, n, k, size, more);
    }
  }

  lemma FreeKeepsPacked(t: Table<Owner?>, i: nat, e: int)
    requires |t.used| == |t.entries| && t.Used(i) && IsNext(t.used, 0, false, e) && e - 1 == i
    ensures (exists k :: Packed(t, k)) ==> Packed(Clear(t, i), i)
  {
    if k :| Packed(t, k) {
      assert k == i + 1;
      forall j | 0 <= j < i ensures t.used[j] && t.entries[j].base == Tail(t, j) {
        assert t.used[j];
      }
    }
  }

  /** `mem_pool_free` */
  method Free(owner: Owner)
    requires owner.pool != null && owner.pool.Valid() && owner in owner.pool.slot
    modifies owner.pool`words, owner.pool`used, owner.pool`slot, owner.pool`live, owner.pool`remain,
             owner.pool`bitmapFull, owner.pool`fragmented
    ensures owner.pool == old(owner.pool) && owner.pool.Valid()
    ensures owner.pool.live == old(owner.pool.live) - {owner} && owner.pool.slot == old(owner.pool.slot) - {owner}
    ensures owner.pool.remain == old(owner.pool.remain) + old(|owner.pool.live[owner]|)
    ensures owner.pool.HasSpace(old(|owner.pool.live[owner]|))
    ensures !NoFit(owner.pool.T(), owner.pool.poolSize, old(|owner.pool.live[owner]|))
    ensures var pool := owner.pool;
            if old(pool.fragmented) then pool.fragmented
            else pool.fragmented <==> old(!HasFree(pool.T())) || !exists k :: Packed(pool.T(), k)
  {
    hide PoolContents.Holds, PoolContents.Owned, PoolLayout.Layout, Bitmap.Agrees, PoolLayout.Packed,
         PoolLayout.HasFree, PoolLayout.Total, PoolLayout.Clear;
    var pool, entryId := owner.pool, owner.id;
    ghost var t := pool.T();
    ReleaseFacts(t, pool.slot, pool.live, pool.mem[..], pool.poolSize, owner);
    FlagBeforeFree(pool, entryId);
    ReleaseSlot(pool, entryId, owner);
    assert pool.T() == Clear(t, entryId);
    FreedFits(t, pool.poolSize, entryId);
  }

  lemma ReleaseFacts(t: Table<Owner?>, slot: map<Owner?, nat>, live: map<Owner?, seq<byte>>, m: seq<byte>, n: int,
                     o: Owner)
    requires Layout(t, n) && Owned(t, slot) && Holds(t, slot, live, m) && n == |m| && o in slot
    ensures t.Used(slot[o]) && |t.used| == |t.entries| && t.entries[slot[o]].size == |live[o]| > 0
    ensures var t' := Clear(t, slot[o]);
            && t' == Table(t.used[slot[o] := false], t.entries) && HasFree(t')
            && Layout(t', n) && Owned(t', slot - {o}) && Holds(t', slot - {o}, live - {o}, m)
            && Total(t') == Total(t) - |live[o]| && 0 <= Total(t') && Total(t) <= n
  {
    OwnedBy(t, slot, o);
    var i := slot[o];
    LiveBytes(t, slot, live, m, i, n);
    Departs(t, slot, live, m, n, i);
    SumClear(t, i, |t.used|);
    TotalBounds(Clear(t, i), n, |t.used|);
    TotalBounds(t, n, |t.used|);
    assert !Clear(t, i).used[i];
  }

  /** Freeing any entry but the last of a packed pool leaves it fragmented; and where no slot was free, it
      counts as fragmented in any case. */
  method FlagBeforeFree(pool: Pool, entryId: nat)
    requires Agrees(pool.words, pool.used) && |pool.used| == |pool.entries| && entryId < |pool.used|
    requires pool.used[entryId]
    requires !pool.fragmented ==> exists k :: Packed(pool.T(), k)
    modifies pool`fragmented
    ensures !pool.fragmented ==> exists k :: Packed(Clear(pool.T(), entryId), k)
    ensures if old(pool.fragmented) then pool.fragmented
            else pool.fragmented <==> !HasFree(pool.T()) || !exists k :: Packed(Clear(pool.T(), entryId), k)
  {
    if !pool.fragmented {
      var b := NextUnused(pool.words, pool.used, 0);
      FreeMiddle(pool.T(), entryId, b);
      b := b - 1;
      if b != entryId {
        pool.fragmented := true;
      } else {
        FreeKeepsPacked(pool.T(), entryId, b + 1);
      }
    }
  }

  lemma FreeMiddle(t: Table<Owner?>, i: nat, e: int)
    requires |t.used| == |t.entries| && i < |t.used| && t.used[i] && IsNext(t.used, 0, false, e)
    requires exists k :: Packed(t, k)
    ensures e == -1 <==> !HasFree(t)
    ensures e != -1 && e - 1 != i ==> !exists k :: Packed(Clear(t, i), k)
  {
    var k :| Packed(t, k);
    if e != -1 {
      assert !t.used[e];
      if e - 1 != i { assert Clear(t, i).used[e - 1] && !Clear(t, i).used[i]; }
    }
  }

  method ReleaseSlot(pool: Pool, i: nat, ghost owner: Owner)
    requires Agrees(pool.words, pool.used) && i < |pool.used| == |pool.entries|
    modifies pool`words, pool`used, pool`slot, pool`live, pool`remain, pool`bitmapFull
    ensures Agrees(pool.words, pool.used) && pool.used == old(pool.used)[i := false]
    ensures |pool.words| == old(|pool.words|)
    ensures !pool.bitmapFull && pool.remain == old(pool.remain) + pool.entries[i].size
    ensures pool.slot == old(pool.slot) - {owner} && pool.live == old(pool.live) - {owner}
  {
    pool.bitmapFull := false;
    pool.remain := pool.remain + pool.entries[i].size;
    pool.ClearBit(i);
    pool.slot, pool.live := pool.slot - {owner}, pool.live - {owner};
  }

  /** `mem_pool_defrag` */
  method Defrag(pool: Pool)
    requires pool.Valid() && pool.Mapped()
    modifies pool`words, pool`used, pool`entries, pool`slot, pool`fragmented, pool.mem, pool.slot.Keys
    ensures pool.Valid() && pool.slot.Keys == old(pool.slot.Keys) && (exists k :: Packed(pool.T(), k))
    ensures pool.fragmented <==> old(pool.fragmented) && (old(pool.Empty()) || HasFree(pool.T()))
  {
    hide PoolContents.Holds, PoolContents.Owned, PoolLayout.Layout, Bitmap.Agrees, PoolLayout.Packed,
         PoolLayout.HasFree, Pushed, NoneOpen;
    TotalBounds(pool.T(), pool.poolSize, |pool.used|);
    if !pool.Empty() {
      var _ := DefragPool(pool, MAX_ULONG, false);
    } else {
      AllUnused(pool.T());
    }
  }

  lemma AllUnused(t: Table<Owner?>)
    requires |t.used| == |t.entries| && forall i :: 0 <= i < |t.used| ==> !t.used[i]
    ensures Packed(t, 0)
  {
  }

  /** `mem_pool_entry_addr`: the handle leads, through its pool and id, to the bytes of the allocation. */
  method EntryAddr(owner: Owner) returns (addr: int)
    requires owner.pool != null && owner.pool.Valid() && owner in owner.pool.slot
    ensures var pool, off := owner.pool, addr - owner.pool.vbase;
            && owner in pool.live && 0 <= off && off + |pool.live[owner]| <= pool.mem.Length && off % ALIGN == 0
            && pool.mem[..][off..off + |pool.live[owner]|] == pool.live[owner]
            && off == pool.entries[pool.slot[owner]].base
  {
    hide PoolContents.Holds, PoolContents.Owned, PoolLayout.Layout, Bitmap.Agrees;
    var pool := owner.pool;
    OwnedBy(pool.T(), pool.slot, owner);
    LiveBytes(pool.T(), pool.slot, pool.live, pool.mem[..], owner.id, pool.poolSize);
    addr := pool.vbase + pool.entries[owner.id].base;
  }

  /** Distinct live handles of a pool occupy disjoint ranges of its memory. */
  lemma HandlesDisjoint(pool: Pool, o: Owner?, o': Owner?)
    requires pool.Valid() && o in pool.slot && o' in pool.slot && o != o'
    ensures var e, e' := pool.entries[pool.slot[o]], pool.entries[pool.slot[o']];
            e.End() <= e'.base || e'.End() <= e.base
  {
    OwnedBy(pool.T(), pool.slot, o);
    OwnedBy(pool.T(), pool.slot, o');
    assert pool.used[pool.slot[o]] && pool.used[pool.slot[o']];
  }

  /** The owner writes a byte of its allocation through `mem_pool_entry_addr`. */
  method WriteByte(owner: Owner, k: nat, v: byte)
    requires owner.pool != null && owner.pool.Valid() && owner in owner.pool.slot && k < |owner.pool.live[owner]|
    modifies owner.pool.mem, owner.pool`live
    ensures owner.pool.Valid()
    ensures owner.pool.live == old(owner.pool.live)[owner := old(owner.pool.live[owner])[k := v]]
  {
    hide PoolContents.Holds, PoolContents.Owned, PoolLayout.Layout, Bitmap.Agrees, PoolLayout.Packed,
         PoolLayout.HasFree, PoolLayout.Total;
    var pool := owner.pool;
    var addr := EntryAddr(owner);
    HoldsWrite(pool.T(), pool.slot, pool.live, pool.mem[..], owner, k, v);
    var at := addr - pool.vbase + k;
    ghost var m, live := pool.mem[..], pool.live[owner := pool.live[owner][k := v]];
    pool.mem[at] := v;
    assert pool.mem[..] == m[at := v];
    pool.live := live;
  }
}
