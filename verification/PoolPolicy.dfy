/** The policy over the pools, src/exa/mm_pool.c: allocation from a list of pools, merging, draining,
    shrinking and destroying them.

    The `light` and `heavy` bits of the pools are kept as sets. Clocks and the success of creating a
    buffer are arbitrary. */
module PoolPolicy {
  import opened Bitmap
  import opened Lists
  import opened PoolContents
  import opened PoolLayout
  import opened VfpCopy
  import opened MemPool
  import opened PoolTransfer

  const POOL_SIZE := 64 * 1024
  const PAGE_SIZE := 4096
  const POOL_SIZE_MAX := POOL_SIZE * 3 / 2
  const POOL_SIZE_MERGED_MAX := 1024 * 1024

  /** TEGRA_ALIGN to the three alignments in use */
  function AlignSize(x: nat): (r: nat)
    ensures r % ALIGN == 0 && x <= r < x + ALIGN
  {
    (x + ALIGN - 1) / ALIGN * ALIGN
  }

  function AlignPage(x: nat): (r: nat)
    ensures r % PAGE_SIZE == 0 && x <= r < x + PAGE_SIZE
  {
    (x + PAGE_SIZE - 1) / PAGE_SIZE * PAGE_SIZE
  }

  function AlignPool(x: nat): (r: nat)
    ensures r % POOL_SIZE == 0 && x <= r < x + POOL_SIZE
  {
    (x + POOL_SIZE - 1) / POOL_SIZE * POOL_SIZE
  }

  type Live = map<Owner?, seq<byte>>

  /** `all` is exactly what the pools hold together. */
  ghost predicate Tie(all: Live, lives: map<Pool, Live>) {
    && (forall p, o {:trigger o in lives[p]} :: p in lives && o in lives[p] ==> o in all && all[o] == lives[p][o])
    && (forall o {:trigger o in all} :: o in all ==> InSome(lives, o))
  }

  ghost predicate InSome(lives: map<Pool, Live>, o: Owner?) {
    exists p :: p in lives && o in lives[p]
  }

  lemma Found(lives: map<Pool, Live>, p: Pool, o: Owner?)
    requires p in lives && o in lives[p]
    ensures InSome(lives, o)
  {
  }

  /** Where an allocation was found, and where it is found after a change. */
  lemma TieStep(all: Live, lives: map<Pool, Live>, o: Owner?) returns (p: Pool)
    requires Tie(all, lives) && o in all
    ensures p in lives && o in lives[p] && lives[p][o] == all[o]
  {
    assert InSome(lives, o);
    p :| p in lives && o in lives[p];
  }

  lemma TieTransfer(all: Live, lives: map<Pool, Live>, lives': map<Pool, Live>, to: Pool, from: Pool,
                    moved: set<Owner?>)
    requires Tie(all, lives) && to in lives && from in lives && to != from && lives'.Keys == lives.Keys
    requires Carried(lives[to], lives[from], lives'[to], lives'[from], moved)
    requires forall p {:trigger lives'[p]} :: p in lives && p != to && p != from ==> lives'[p] == lives[p]
    ensures Tie(all, lives')
  {
    forall p, o | p in lives' && o in lives'[p] ensures o in all && all[o] == lives'[p][o] {
      var q: Pool := if p == to && o !in lives[to] then from else p;
      assert o in lives[q];
    }
    forall o | o in all ensures InSome(lives', o) {
      var p := TieStep(all, lives, o);
      Found(lives', if p == from && o in moved then to else p, o);
    }
  }

  lemma TieDrop(all: Live, lives: map<Pool, Live>, lives': map<Pool, Live>, p: Pool)
    requires Tie(all, lives) && p in lives && lives[p] == map[] && lives' == lives - {p}
    ensures Tie(all, lives')
  {
    forall o | o in all ensures InSome(lives', o) {
      var q := TieStep(all, lives, o);
      Found(lives', q, o);
    }
    forall q, o | q in lives' && o in lives'[q] ensures o in all && all[o] == lives'[q][o] {
      assert o in lives[q];
    }
  }

  /** One pool changed, and `all` with it. */
  lemma TieChange(all: Live, lives: map<Pool, Live>, all': Live, lives': map<Pool, Live>, p: Pool)
    requires Tie(all, lives) && p in lives' && lives'.Keys == lives.Keys + {p}
    requires forall q {:trigger lives'[q]} :: q in lives && q != p ==> lives'[q] == lives[q]
    requires forall o {:trigger o in lives'[p]} :: o in lives'[p] ==> o in all' && all'[o] == lives'[p][o]
    requires forall q, o {:trigger o in lives[q]} ::
               q in lives && q != p && o in lives[q] ==> o in all' && all'[o] == lives[q][o]
    requires forall o {:trigger o in all'} ::
               o in all' && o !in lives'[p] ==> o in all && (p in lives ==> o !in lives[p])
    ensures Tie(all', lives')
  {
    forall o | o in all' ensures InSome(lives', o) {
      if o in lives'[p] {
        Found(lives', p, o);
      } else {
        var q := TieStep(all, lives, o);
        Found(lives', q, o);
      }
    }
    forall q, o | q in lives' && o in lives'[q] ensures o in all' && all'[o] == lives'[q][o] {
      assert q != p ==> o in lives[q];
    }
  }

  lemma TieNew(all: Live, lives: map<Pool, Live>, lives': map<Pool, Live>, p: Pool)
    requires Tie(all, lives) && p !in lives && lives' == lives[p := map[]]
    ensures Tie(all, lives')
  {
    TieChange(all, lives, all, lives', p);
  }

  lemma TiePut(all: Live, lives: map<Pool, Live>, lives': map<Pool, Live>, p: Pool, o: Owner?, v: seq<byte>)
    requires Tie(all, lives) && p in lives && o !in all && p in lives' && lives'.Keys == lives.Keys
    requires lives'[p] == lives[p][o := v]
    requires forall q {:trigger lives'[q]} :: q in lives && q != p ==> lives'[q] == lives[q]
    ensures Tie(all[o := v], lives')
  {
    forall x | x in lives'[p] ensures x in all[o := v] && all[o := v][x] == lives'[p][x] {
      assert x != o ==> x in lives[p];
    }
    TieChange(all, lives, all[o := v], lives', p);
  }

  lemma TieRemove(all: Live, lives: map<Pool, Live>, lives': map<Pool, Live>, p: Pool, o: Owner?)
    requires Tie(all, lives) && p in lives && o in lives[p] && p in lives' && lives'.Keys == lives.Keys
    requires lives'[p] == lives[p] - {o}
    requires forall q {:trigger lives'[q]} :: q in lives && q != p ==> lives'[q] == lives[q] && o !in lives[q]
    ensures Tie(all - {o}, lives')
  {
    forall x | x in lives'[p] ensures x in all - {o} && (all - {o})[x] == lives'[p][x] {
      assert x in lives[p];
    }
    forall q, x | q in lives && q != p && x in lives[q] ensures x in all - {o} && (all - {o})[x] == lives[q][x] {
      assert lives'[q] == lives[q];
    }
    TieChange(all, lives, all - {o}, lives', p);
  }

  // ---- The pools ----------------------------------------------------------------------------------

  ghost predicate PoolOk(p: Pool)
    reads p, p.mem, p.slot.Keys
  {
    && p.Valid() && p.poolSize <= POOL_SIZE_MERGED_MAX && p.poolSize % PAGE_SIZE == 0
    && (p.accessRefcount > 0 ==> p.vbase % ALIGN == 0)
  }

  /** Two pools share neither memory nor handles, and are not mapped over one another. */
  ghost predicate Separate(p: Pool, q: Pool)
    reads p`slot, p`vbase, p`accessRefcount, q`slot, q`vbase, q`accessRefcount
  {
    && p.mem != q.mem && p.slot.Keys !! q.slot.Keys
    && (p.accessRefcount > 0 && q.accessRefcount > 0 ==> MappedApart(p, q))
  }

  ghost function LivesOf(s: set<Pool>): (r: map<Pool, Live>)
    reads s
  {
    map p | p in s :: p.live
  }

  /** The pools of `s` lie inside the footprint and share nothing. */
  ghost predicate Parted(s: set<Pool>, r: set<object?>)
    reads r
  {
    && (forall p {:trigger p in s} :: p in s ==> p in r && p.mem in r && p.slot.Keys <= r && PoolOk(p))
    && forall p, q {:trigger Separate(p, q)} :: p in s && q in s && p != q ==> Separate(p, q)
  }

  /** The pools of `s`, inside the footprint `r`, hold exactly the allocations `all`. */
  ghost predicate Good(s: set<Pool>, all: Live, r: set<object?>)
    reads r
  {
    Parted(s, r) && Tie(all, LivesOf(s))
  }

  /** A mapping of `p` at `base` overlaps no other mapping. */
  predicate FreeAt(s: set<Pool>, p: Pool, base: int)
    reads s
  {
    && base % ALIGN == 0
    && forall q :: q in s && q != p && q.accessRefcount > 0 ==>
         q.vbase + q.mem.Length <= base || base + p.mem.Length <= q.vbase
  }

  /** `mmap`: any free page. */
  method MapAnywhere(s: set<Pool>, p: Pool) returns (base: int)
    ensures FreeAt(s, p, base)
  {
    base := *;
    if !FreeAt(s, p, base) {
      var rest;
      base, rest := 0, s;
      while rest != {}
        invariant rest <= s && base % ALIGN == 0 && 0 <= base
        invariant forall q :: q in s && q !in rest ==> q.vbase + q.mem.Length <= base
      {
        var q :| q in rest;
        rest := rest - {q};
        if base < q.vbase + q.mem.Length { base := AlignSize(q.vbase + q.mem.Length); }
      }
    }
  }

  /** `tegra_exa_pixmap_pool_map` */
  method MapPool(p: Pool, s: set<Pool>, ghost all: Live, ghost r: set<object?>)
    requires s <= r && p in s && Good(s, all, r)
    modifies p`vbase, p`accessRefcount
    ensures Good(s, all, r) && p.Mapped() && p.accessRefcount == old(p.accessRefcount) + 1
  {
    hide Pool.Valid, Tie;
    var base := p.vbase;
    if p.accessRefcount == 0 {
      base := MapAnywhere(s, p);
    }
    assert PoolOk(p);
    p.OpenAccess(base);
    assert LivesOf(s) == old(LivesOf(s));
    assert PoolOk(p);
    forall q | q in s && q != p ensures Separate(p, q) && Separate(q, p) {
      assert old(Separate(p, q) && Separate(q, p));
    }
  }

  /** `tegra_exa_pixmap_pool_unmap` */
  method UnmapPool(p: Pool, ghost s: set<Pool>, ghost all: Live, ghost r: set<object?>)
    requires s <= r && p in s && Good(s, all, r) && p.accessRefcount > 0
    modifies p`vbase, p`accessRefcount
    ensures Good(s, all, r) && p.accessRefcount == old(p.accessRefcount) - 1
    ensures p.accessRefcount > 0 ==> p.vbase == old(p.vbase)
  {
    hide Pool.Valid, Tie;
    assert PoolOk(p);
    p.CloseAccess();
    assert LivesOf(s) == old(LivesOf(s));
    assert PoolOk(p);
    forall q | q in s && q != p ensures Separate(p, q) && Separate(q, p) {
      assert old(Separate(p, q) && Separate(q, p));
    }
  }

  lemma OkLiveKeys(p: Pool)
    requires PoolOk(p)
    ensures p.live.Keys == p.slot.Keys
  {
  }

  lemma TransferKeys(st: Start, now: Start, bytes: int, moved: set<Owner?>)
    requires Progress(st, now, bytes, moved) && st.toKeys !! st.fromKeys && st.fromLive.Keys == st.fromKeys
    ensures now.toKeys <= st.toKeys + st.fromKeys && now.fromKeys <= st.fromKeys && now.toKeys !! now.fromKeys
    ensures Carried(st.toLive, st.fromLive, now.toLive, now.fromLive, moved)
    ensures bytes == st.toRemain - now.toRemain == now.fromRemain - st.fromRemain && 0 <= bytes
  {
  }

  /** What stays behind was there before. */
  ghost predicate Within(a: Live, b: Live) {
    forall o {:trigger o in a} :: o in a ==> o in b && a[o] == b[o]
  }

  /** A transfer has moved everything, and so much of the target's room is left. */
  ghost predicate Emptied(to: Pool, from: Pool, slots: int)
    reads to`used, to`entries, to`remain, to`bitmapFull, to`fragmented, from`remain
  {
    from.Empty() && RoomLeft(to, slots)
  }

  lemma CarriedWithin(a: Live, b: Live, a': Live, b': Live, moved: set<Owner?>)
    requires Carried(a, b, a', b', moved)
    ensures Within(b', b)
  {
  }

  /** What decides whether a pool takes an entry */
  datatype Gaps = Gaps(table: Table<Owner?>, full: bool)

  ghost function GapsOf(p: Pool): (r: Gaps)
    reads p`used, p`entries, p`remain, p`bitmapFull
  {
    Gaps(p.T(), p.Full())
  }

  /** What the kernel answers during a call: `memory` says that every request for more bitmap is granted,
      `buffers` that every request for a buffer is, `scarce` that one is refused for lack of memory, and `freed`
      that it is granted after the compaction that follows. */
  datatype Kernel = Kernel(memory: bool, buffers: bool, scarce: bool, freed: bool)

  /** None of these allocations fits a gap of the pool, which started with so many slots, unless it is
      full. Without memory for the bitmap that is so as long as it has not grown. */
  ghost predicate Blocked(g: Gaps, n: int, live: Live, memory: bool, slots: int) {
    g.full || (!memory && |g.table.used| > slots) || NothingFits(g.table, n, live, memory)
  }

  /** What fitted nowhere in a pool still fits nowhere. */
  ghost predicate NoRoomier(g: Gaps, g': Gaps, n: int) {
    (g.full ==> g'.full) && Worse(g.table, g'.table, n)
  }

  lemma NoRoomierLonger(g: Gaps, g': Gaps, n: int)
    requires NoRoomier(g, g', n)
    ensures |g.table.used| <= |g'.table.used|
  {
  }

  lemma BlockedSince(g: Gaps, n: int, live: Live, memory: bool, slots: int, slots': int)
    requires Blocked(g, n, live, memory, slots) && slots' <= slots
    ensures Blocked(g, n, live, memory, slots')
  {
  }

  lemma StaysBlocked(g: Gaps, g': Gaps, n: int, live: Live, memory: bool, slots: int)
    requires NoRoomier(g, g', n) && Blocked(g, n, live, memory, slots) && slots <= |g.table.used|
    ensures Blocked(g', n, live, memory, slots)
  {
    hide PoolLayout.NoFit, PoolLayout.NoSlot;
    if NothingFits(g.table, n, live, memory) && (memory || |g'.table.used| <= slots) {
      forall o | o in live ensures Misfit(g'.table, n, |live[o]|, memory) {
        assert Misfit(g.table, n, |live[o]|, memory);
      }
    }
  }

  method TransferPair(to: Pool, from: Pool, fast: bool, memory: bool) returns (bytes: int, ghost moved: set<Owner?>)
    requires PoolOk(to) && PoolOk(from) && to != from && Separate(to, from) && to.Mapped() && from.Mapped()
    modifies to`words, to`used, to`entries, to`slot, to`live, to`remain, to`bitmapFull, to`fragmented,
             to.mem, from`words, from`used, from`slot, from`live, from`remain, from`bitmapFull, from`fragmented,
             from.slot.Keys, to.slot.Keys
    ensures PoolOk(to) && PoolOk(from)
    ensures to.slot.Keys <= old(to.slot.Keys + from.slot.Keys) && from.slot.Keys <= old(from.slot.Keys)
    ensures to.slot.Keys !! from.slot.Keys && Carried(old(to.live), old(from.live), to.live, from.live, moved)
    ensures from.remain == old(from.remain) + bytes && to.remain == old(to.remain) - bytes && 0 <= bytes
    ensures fast && old(RoomForAll(to, from)) ==> Emptied(to, from, old(FreeSlots(to) - FilledSlots(from)))
    ensures if !fast then Stuck(to, from) else
              && Blocked(GapsOf(to), to.poolSize, from.live, memory, old(|to.used|))
              && NoRoomier(old(GapsOf(to)), GapsOf(to), to.poolSize)
    ensures Within(from.live, old(from.live)) && (old(to.Full()) ==> to.Full())
    ensures Shut(to.bitmapFull, to.T(), old(to.bitmapFull), old(to.T()), memory)
    ensures Shut(from.bitmapFull, from.T(), old(from.bitmapFull), old(from.T()), memory)
  {
    hide Pool.Valid, Progress, Carried, RoomForAll, PoolLayout.Packed, PoolLayout.NoFit, RoomLeft, Stuck, Within,
         Worse, NothingFits;
    OkLiveKeys(from);
    ghost var st := Now(to, from);
    if fast {
      bytes, moved := TransferEntriesFast(to, from, memory);
    } else {
      bytes, moved := TransferEntries(to, from, memory);
    }
    TransferKeys(st, Now(to, from), bytes, moved);
    CarriedWithin(st.toLive, st.fromLive, to.live, from.live, moved);
  }

  /** A transfer between two of several pools: the others keep what they hold. */
  method TransferAmong(to: Pool, from: Pool, fast: bool, memory: bool, ghost s: set<Pool>, ghost r: set<object?>)
    returns (bytes: int, ghost moved: set<Owner?>)
    requires s <= r && to in s && from in s && to != from && Parted(s, r)
    requires to.Mapped() && from.Mapped()
    modifies to`words, to`used, to`entries, to`slot, to`live, to`remain, to`bitmapFull, to`fragmented,
             to.mem, from`words, from`used, from`slot, from`live, from`remain, from`bitmapFull, from`fragmented,
             from.slot.Keys, to.slot.Keys
    ensures Parted(s, r) && Carried(old(to.live), old(from.live), to.live, from.live, moved)
    ensures forall q {:trigger q.live} :: q in s && q != to && q != from ==> q.live == old(q.live)
    ensures from.remain == old(from.remain) + bytes && to.remain == old(to.remain) - bytes && 0 <= bytes
    ensures fast && old(RoomForAll(to, from)) ==> Emptied(to, from, old(FreeSlots(to) - FilledSlots(from)))
    ensures if !fast then Stuck(to, from) else
              && Blocked(GapsOf(to), to.poolSize, from.live, memory, old(|to.used|))
              && NoRoomier(old(GapsOf(to)), GapsOf(to), to.poolSize)
    ensures Within(from.live, old(from.live)) && (old(to.Full()) ==> to.Full())
    ensures Shut(to.bitmapFull, to.T(), old(to.bitmapFull), old(to.T()), memory)
    ensures Shut(from.bitmapFull, from.T(), old(from.bitmapFull), old(from.T()), memory)
  {
    hide PoolOk, Carried, RoomForAll, Emptied, Stuck, Within, Blocked, NoRoomier, GapsOf, MemPool.MappedApart, Shut,
         PoolLayout.LastUsed;
    assert PoolOk(to) && PoolOk(from) && Separate(to, from);
    bytes, moved := TransferPair(to, from, fast, memory);
    assert Separate(to, from) && Separate(from, to) by {
      assert old(Separate(to, from) && Separate(from, to));
    }
    forall q | q in s && q != to && q != from
      ensures PoolOk(q) && q.slot == old(q.slot) && q.live == old(q.live)
      ensures Separate(q, to) && Separate(q, from) && Separate(to, q) && Separate(from, q)
    {
      assert old(PoolOk(q) && Separate(q, to) && Separate(q, from) && Separate(to, q) && Separate(from, q));
    }
    forall p, q | p in s && q in s && p != q ensures Separate(p, q) {
      assert old(Separate(p, q));
    }
  }

  /** A transfer in either form between two mapped pools: allocations change pools, none is lost. */
  method Transfer(to: Pool, from: Pool, fast: bool, memory: bool, ghost s: set<Pool>, ghost all: Live,
                  ghost r: set<object?>)
    returns (bytes: int)
    requires s <= r && to in s && from in s && to != from && Good(s, all, r)
    requires to.Mapped() && from.Mapped()
    modifies to`words, to`used, to`entries, to`slot, to`live, to`remain, to`bitmapFull, to`fragmented,
             to.mem, from`words, from`used, from`slot, from`live, from`remain, from`bitmapFull, from`fragmented,
             from.slot.Keys, to.slot.Keys
    ensures Good(s, all, r)
    ensures from.remain == old(from.remain) + bytes && to.remain == old(to.remain) - bytes && 0 <= bytes
    ensures fast && old(RoomForAll(to, from)) ==> Emptied(to, from, old(FreeSlots(to) - FilledSlots(from)))
    ensures if !fast then Stuck(to, from) else
              && Blocked(GapsOf(to), to.poolSize, from.live, memory, old(|to.used|))
              && NoRoomier(old(GapsOf(to)), GapsOf(to), to.poolSize)
    ensures Within(from.live, old(from.live)) && (old(to.Full()) ==> to.Full())
    ensures Shut(to.bitmapFull, to.T(), old(to.bitmapFull), old(to.T()), memory)
    ensures Shut(from.bitmapFull, from.T(), old(from.bitmapFull), old(from.T()), memory)
  {
    hide PoolOk, Tie, Carried, RoomForAll, Emptied, Stuck, Within, Blocked, NoRoomier, GapsOf, MemPool.MappedApart,
         Shut, PoolLayout.LastUsed, Separate, Parted;
    ghost var moved, lives := {}, LivesOf(s);
    bytes, moved := TransferAmong(to, from, fast, memory, s, r);
    TieTransfer(all, lives, LivesOf(s), to, from, moved);
  }

  /** The bracket around every transfer: map both pools, move entries, unmap both. */
  method MoveEntries(to: Pool, from: Pool, fast: bool, memory: bool, s: set<Pool>, ghost all: Live,
                     ghost r: set<object?>)
    returns (bytes: int)
    requires s <= r && to in s && from in s && to != from && Good(s, all, r)
    modifies to, from, to.mem, from.slot.Keys, to.slot.Keys
    ensures Good(s, all, r)
    ensures from.remain == old(from.remain) + bytes && to.remain == old(to.remain) - bytes && 0 <= bytes
    ensures to.accessRefcount == old(to.accessRefcount) && from.accessRefcount == old(from.accessRefcount)
    ensures fast && old(RoomForAll(to, from)) ==> Emptied(to, from, old(FreeSlots(to) - FilledSlots(from)))
    ensures if !fast then Stuck(to, from) else
              && Blocked(GapsOf(to), to.poolSize, from.live, memory, old(|to.used|))
              && NoRoomier(old(GapsOf(to)), GapsOf(to), to.poolSize)
    ensures Within(from.live, old(from.live)) && (old(to.Full()) ==> to.Full())
    ensures Shut(to.bitmapFull, to.T(), old(to.bitmapFull), old(to.T()), memory)
    ensures Shut(from.bitmapFull, from.T(), old(from.bitmapFull), old(from.T()), memory)
  {
    hide Good, RoomForAll, Emptied, Stuck, Within, Blocked, NoRoomier;
    MapPool(to, s, all, r);
    MapPool(from, s, all, r);
    bytes := Transfer(to, from, fast, memory, s, all, r);
    UnmapPool(from, s, all, r);
    UnmapPool(to, s, all, r);
  }

  /** `tegra_exa_pixmap_pool_create`: fails for an empty size, and whenever no buffer can be had. `buffers`
      says that one can; without this promise it may go either way. */
  method CreatePool(size: nat, bitmapSize: nat, buffers: bool, ghost s: set<Pool>, ghost all: Live,
                    ghost r: set<object?>)
    returns (p: Pool?, ghost r': set<object?>)
    requires s <= r && Good(s, all, r) && 0 < bitmapSize && size <= POOL_SIZE_MERGED_MAX && size % PAGE_SIZE == 0
    ensures p == null ==> r' == r
    ensures p != null ==>
              && fresh(p) && fresh(p.mem) && p !in s && r' == r + {p, p.mem} && Good(s + {p}, all, r')
              && p.Empty() && !p.fragmented && !p.bitmapFull && p.remain == size == p.poolSize
              && |p.used| == BITS * bitmapSize
              && p.live == map[] && p.accessRefcount == 0
    ensures (size == 0 ==> p == null) && (buffers && 0 < size ==> p != null)
  {
    hide Pool.Valid, Tie;
    r' := r;
    var ok: bool := *;
    if size == 0 || !(ok || buffers) {
      return null, r;
    }
    var q := new Pool(size, bitmapSize);
    p, r' := q, r + {q, q.mem};
    assert PoolOk(q);
    forall x | x in s ensures PoolOk(x) && Separate(x, q) && Separate(q, x) {
      assert x in r && x.mem in r && x.slot.Keys <= r && PoolOk(x);
    }
    assert LivesOf(s) == old(LivesOf(s));
    TieNew(all, LivesOf(s), LivesOf(s + {q}), q);
  }

  lemma EmptyHoldsNothing(p: Pool)
    requires p.Valid() && p.Empty()
    ensures p.live == map[]
  {
    TotalBounds(p.T(), p.poolSize, |p.used|);
  }

  lemma Footprint(p: Pool, s: set<Pool>, all: Live, r: set<object?>)
    requires p in s && Good(s, all, r)
    ensures p in r && p.mem in r && p.slot.Keys <= r && PoolOk(p)
  {
  }

  /** `tegra_exa_pixmap_pool_destroy` of an empty pool loses no allocation. */
  lemma DropEmpty(p: Pool, s: set<Pool>, all: Live, r: set<object?>)
    requires s <= r && p in s && Good(s, all, r) && p.Empty()
    ensures Good(s - {p}, all, r)
  {
    assert PoolOk(p);
    EmptyHoldsNothing(p);
    TieDrop(all, LivesOf(s), LivesOf(s - {p}), p);
  }

  // ---- The list of pools --------------------------------------------------------------------------

  function Set(l: seq<Pool>): (r: set<Pool>) {
    set p | p in l
  }

  lemma DropSet(l: seq<Pool>, i: nat)
    requires i < |l| && Distinct(l)
    ensures Distinct(Drop(l, i)) && Set(Drop(l, i)) == Set(l) - {l[i]}
  {
    forall p | p in Set(l) - {l[i]} ensures p in Drop(l, i) {
      var k :| 0 <= k < |l| && l[k] == p;
      assert Drop(l, i)[if k < i then k else k - 1] == p;
    }
  }

  ghost predicate OpenPool(p: Pool, memory: bool)
    reads p`bitmapFull, p`used, p`entries
  {
    p.bitmapFull ==> !memory && LastUsed(p.T())
  }

  /** `struct tegra_exa`, as far as the pools go. */
  class Exa {
    var pools: seq<Pool>
    var light: set<Pool>
    var heavy: set<Pool>
    var slowTime: int  // `pool_slow_compact_time` and `pool_fast_compact_time`, in seconds
    var fastTime: int
    ghost var all: Live  // the bytes of every live allocation in the pools
    ghost var Repr: set<object?>

    constructor ()
      ensures Valid() && pools == [] && light == {} && heavy == {} && all == map[] && fresh(Repr)
      ensures slowTime == 0 && fastTime == 0
    {
      pools, light, heavy, slowTime, fastTime := [], {}, {}, 0, 0;
      all, Repr := map[], {};
    }

    /** The list, and `extra` pools that are not in it yet. */
    ghost predicate ValidWith(extra: set<Pool>)
      reads `pools, `all, `Repr, Repr
    {
      && this !in Repr && Distinct(pools) && Set(pools) !! extra && Set(pools) + extra <= Repr
      && Good(Set(pools) + extra, all, Repr)
    }

    ghost predicate Valid()
      reads `pools, `all, `Repr, Repr
    {
      ValidWith({})
    }

    /** No bitmap counts as full, unless it was refused growth when no slot followed the last entry. */
    ghost predicate Open(memory: bool)
      reads this`pools, pools
    {
      forall p {:trigger p in pools} :: p in pools ==> OpenPool(p, memory)
    }

    /** A pool is destroyed once it is empty. */
    ghost predicate NoneEmpty()
      reads this`pools, pools
    {
      forall p {:trigger p in pools} :: p in pools ==> !p.Empty()
    }
  }

  /** `tegra_exa_pixmap_pool_destroy` */
  method Destroy(exa: Exa, i: nat, extra: set<Pool>)
    requires exa.ValidWith(extra) && i < |exa.pools| && exa.pools[i].Empty()
    modifies exa`pools
    ensures exa.ValidWith(extra) && exa.pools == Drop(old(exa.pools), i)
    ensures Set(exa.pools) == old(Set(exa.pools)) - {old(exa.pools[i])}
  {
    hide Good;
    ghost var p := exa.pools[i];
    DropSet(exa.pools, i);
    DropEmpty(p, Set(exa.pools) + extra, exa.all, exa.Repr);
    assert Set(exa.pools) + extra - {p} == Set(Drop(exa.pools, i)) + extra;
    exa.pools := Drop(exa.pools, i);
  }

  // ---- Merging ------------------------------------------------------------------------------------

  predicate Mergeable(p: Pool)
    reads p`remain
  {
    p.poolSize <= POOL_SIZE_MAX && p.remain % PAGE_SIZE != 0
  }

  /** What merging has to know of a pool: whether it can be merged, because it has at most 96 KiB and part of a page
      to spare, and what it adds to the sums. */
  datatype Load = Load(merges: bool, content: int, slots: int, slack: int)

  ghost function LoadOf(p: Pool): (r: Load)
    reads p`remain, p`used
  {
    Load(p.poolSize <= 96 * 1024 && p.remain % 4096 != 0, p.poolSize - p.remain, |p.used|, p.remain % 4096)
  }

  ghost function Loads(l: seq<Pool>): (r: seq<Load>)
    reads l
    ensures |r| == |l| && forall i {:trigger r[i]} :: 0 <= i < |l| ==> r[i] == LoadOf(l[i])
  {
    if l == [] then [] else [LoadOf(l[0])] + Loads(l[1..])
  }

  /** The bytes that the first `k` pools hold, as far as they can be merged */
  ghost function Content(l: seq<Load>, k: nat): (r: int)
    requires k <= |l|
  {
    if k == 0 then 0 else Content(l, k - 1) + if l[k - 1].merges then l[k - 1].content else 0
  }

  ghost function Slots(l: seq<Load>, k: nat): (r: int)
    requires k <= |l|
  {
    if k == 0 then 0 else Slots(l, k - 1) + if l[k - 1].merges then l[k - 1].slots else 0
  }

  /** The space they waste in pages that are partly used */
  ghost function Slack(l: seq<Load>, k: nat): (r: int)
    requires k <= |l|
  {
    if k == 0 then 0 else Slack(l, k - 1) + if l[k - 1].merges then l[k - 1].slack else 0
  }

  ghost predicate LoadsOk(l: seq<Load>) {
    forall i {:trigger l[i]} :: 0 <= i < |l| && l[i].merges ==>
      0 < l[i].content <= POOL_SIZE_MAX && 0 < l[i].slots && 0 <= l[i].slack
  }

  /** The pools are examined up to the one that makes the merged pool as large as it may be. */
  ghost predicate Examined(l: seq<Load>, n: nat) {
    && n <= |l| && (forall k {:trigger Content(l, k)} :: 0 <= k < n ==> Content(l, k) < 1024 * 1024)
    && (n < |l| ==> Content(l, n) >= 1024 * 1024)
  }

  lemma LoadsAre(exa: Exa)
    requires exa.Valid()
    ensures LoadsOk(Loads(exa.pools))
  {
    hide Pool.Valid, Good;
    forall p | p in exa.pools
      ensures LoadOf(p).merges ==> 0 < LoadOf(p).content <= POOL_SIZE_MAX && 0 < LoadOf(p).slots
    {
      Footprint(p, Set(exa.pools) + {}, exa.all, exa.Repr);
      UsedSpace(p);
    }
  }

  lemma {:induction false} SumsGrow(l: seq<Load>, j: nat, k: nat)
    requires LoadsOk(l) && j <= k <= |l|
    ensures 0 <= Content(l, j) <= Content(l, k) && 0 <= Slots(l, j) <= Slots(l, k) && 0 <= Slack(l, j) <= Slack(l, k)
    ensures forall i {:trigger l[i]} :: j <= i < k && l[i].merges ==>
              l[i].content <= Content(l, k) - Content(l, j) && l[i].slots <= Slots(l, k) - Slots(l, j)
  {
    if k > j {
      SumsGrow(l, j, k - 1);
    } else if k > 0 {
      SumsGrow(l, k - 1, k - 1);
    }
  }

  /** Where nothing is to be merged, the sums stand still. */
  lemma {:induction false} NothingMerges(l: seq<Load>, j: nat, k: nat)
    requires j <= k <= |l| && forall i {:trigger l[i]} :: j <= i < k ==> !l[i].merges
    ensures Content(l, j) == Content(l, k) && Slots(l, j) == Slots(l, k) && Slack(l, j) == Slack(l, k)
  {
    if k > j { NothingMerges(l, j, k - 1); }
  }

  /** A merged pool is large enough for the first pool that goes there. */
  lemma FirstFits(l: seq<Load>, n: nat, j: nat)
    requires LoadsOk(l) && n <= |l| && j < |l| && l[j].merges && 0 < Slack(l, n)
    requires forall i {:trigger l[i]} :: 0 <= i < j ==> !l[i].merges
    ensures l[j].content <= Content(l, n) && l[j].slots <= Slots(l, n)
  {
    if n <= j {
      NothingMerges(l, 0, n);
    }
    SumsGrow(l, 0, n);
  }

  /** The three sums over the pools, up to the one that is enough */
  method MergeSums(exa: Exa, ghost l: seq<Load>) returns (unaligned: nat, sum: nat, bitmap: nat, ghost n: nat)
    requires exa.Valid() && l == Loads(exa.pools)
    ensures Examined(l, n) && n <= |l|
    ensures unaligned == Slack(l, n) && sum == Content(l, n) && BITS * bitmap == Slots(l, n)
  {
    hide Pool.Valid, Good;
    var i := 0;
    unaligned, sum, bitmap, n := 0, 0, 0, 0;
    while i < |exa.pools|
      invariant n == i <= |exa.pools| && sum == Content(l, n) && unaligned == Slack(l, n)
      invariant BITS * bitmap == Slots(l, n)
      invariant forall k {:trigger Content(l, k)} :: 0 <= k <= n ==> Content(l, k) < POOL_SIZE_MERGED_MAX
    {
      var p := exa.pools[i];
      if Mergeable(p) {
        Footprint(p, Set(exa.pools) + {}, exa.all, exa.Repr);
        UsedSpace(p);
        unaligned, sum, bitmap := unaligned + p.remain % PAGE_SIZE, sum + (p.poolSize - p.remain), bitmap + |p.words|;
      }
      n := n + 1;
      if sum >= POOL_SIZE_MERGED_MAX {
        break;
      }
      i := i + 1;
    }
  }

  /** How large the merged pool is to be; `bitmap` is 0 when merging is not worth it. */
  method MergeSize(exa: Exa) returns (size: nat, bitmap: nat, ghost n: nat)
    requires exa.Valid()
    ensures size <= POOL_SIZE_MERGED_MAX && size % PAGE_SIZE == 0 && Examined(Loads(exa.pools), n) && n <= |exa.pools|
    ensures bitmap == 0 <==> Slack(Loads(exa.pools), n) < POOL_SIZE
    ensures bitmap > 0 ==>
              && (if Content(Loads(exa.pools), n) <= 1024 * 1024
                  then Content(Loads(exa.pools), n) <= size < Content(Loads(exa.pools), n) + 4096
                  else size == 1024 * 1024)
              && 0 < size && BITS * bitmap == Slots(Loads(exa.pools), n)
  {
    hide Exa.ValidWith, Examined, LoadsOk;
    ghost var l := Loads(exa.pools);
    LoadsAre(exa);
    var unaligned, sum;
    unaligned, sum, bitmap, n := MergeSums(exa, l);
    if unaligned < POOL_SIZE {
      return 0, 0, n;
    }
    SomethingMerges(l, n);
    size := AlignPage(sum);
    size := if size > POOL_SIZE_MERGED_MAX then POOL_SIZE_MERGED_MAX else size;
  }

  lemma SomethingMerges(l: seq<Load>, n: nat)
    requires LoadsOk(l) && n <= |l| && 0 < Slack(l, n)
    ensures 0 < Content(l, n) && 0 < Slots(l, n)
  {
    if forall i {:trigger l[i]} :: 0 <= i < n ==> !l[i].merges {
      NothingMerges(l, 0, n);
    }
    SumsGrow(l, 0, n);
  }

  lemma UsedSpace(p: Pool)
    requires p.Valid()
    ensures 0 <= p.remain <= p.poolSize && |p.words| > 0 && |p.used| == BITS * |p.words|
    ensures Count(p.T(), |p.used|) <= |p.used| && (p.Empty() ==> Count(p.T(), |p.used|) == 0)
  {
    TotalBounds(p.T(), p.poolSize, |p.used|);
  }

  /** A new pool beside the list, unless the buffer for it is refused */
  method AddExtra(exa: Exa, size: nat, bitmapSize: nat, buffers: bool, extra: set<Pool>) returns (p: Pool?)
    requires exa.ValidWith(extra) && 0 < bitmapSize && size <= POOL_SIZE_MERGED_MAX && size % PAGE_SIZE == 0
    modifies exa`Repr
    ensures fresh(exa.Repr - old(exa.Repr))
    ensures buffers && 0 < size ==> p != null
    ensures p == null ==> exa.ValidWith(extra)
    ensures p != null ==>
              && fresh(p) && exa.ValidWith(extra + {p}) && p.Empty() && !p.fragmented && !p.bitmapFull
              && p.remain == size == p.poolSize
              && |p.used| == BITS * bitmapSize
    ensures size == 0 ==> p == null
  {
    hide Good;
    ghost var r;
    p, r := CreatePool(size, bitmapSize, buffers, Set(exa.pools) + extra, exa.all, exa.Repr);
    exa.Repr := r;
    if p != null {
      assert Set(exa.pools) + extra + {p} == Set(exa.pools) + (extra + {p});
    }
  }

  /** What allocating in a pool depends on */
  datatype Look = Look(table: Table<Owner?>, remain: int, bitmapFull: bool, fragmented: bool)

  ghost function LookOf(p: Pool): (r: Look)
    reads p`used, p`entries, p`remain, p`bitmapFull, p`fragmented
  {
    Look(p.T(), p.remain, p.bitmapFull, p.fragmented)
  }

  /** One transfer between a pool of the list and a pool beside it */
  method MoveOut(exa: Exa, i: nat, p: Pool, memory: bool, extra: set<Pool>)
    requires exa.ValidWith(extra) && i < |exa.pools| && p in extra
    modifies exa.Repr
    ensures exa.ValidWith(extra)
    ensures exa.pools == old(exa.pools) && exa.all == old(exa.all) && exa.Repr == old(exa.Repr)
    ensures exa.light == old(exa.light) && exa.heavy == old(exa.heavy)
    ensures exa.pools[i].remain - old(exa.pools[i].remain) == old(p.remain) - p.remain
    ensures p.Empty() ==> old(p.Empty()) && exa.pools[i].remain == old(exa.pools[i].remain)
    ensures forall q {:trigger q.remain} :: q in Set(exa.pools) + extra && q != p && q != exa.pools[i] ==>
              && q.remain == old(q.remain) && q.used == old(q.used)
              && q.live == old(q.live) && LookOf(q) == old(LookOf(q))
    ensures old(RoomForAll(p, exa.pools[i])) ==> Emptied(p, exa.pools[i], old(FreeSlots(p) - FilledSlots(exa.pools[i])))
    ensures Blocked(GapsOf(p), p.poolSize, exa.pools[i].live, memory, old(|p.used|))
    ensures NoRoomier(old(GapsOf(p)), GapsOf(p), p.poolSize)
    ensures Shut(p.bitmapFull, p.T(), old(p.bitmapFull), old(p.T()), memory)
    ensures Shut(exa.pools[i].bitmapFull, exa.pools[i].T(), old(exa.pools[i].bitmapFull), old(exa.pools[i].T()), memory)
  {
    hide Good, RoomForAll, Emptied, Pool.Valid, Blocked, NoRoomier;
    var q := exa.pools[i];
    Footprint(p, Set(exa.pools) + extra, exa.all, exa.Repr);
    Footprint(q, Set(exa.pools) + extra, exa.all, exa.Repr);
    UsedSpace(p);
    var _ := MoveEntries(p, q, true, memory, Set(exa.pools) + extra, exa.all, exa.Repr);
  }

  /** What merging leaves of the first `k` pools, when it can take all that they hold */
  ghost function Unmerged(was: seq<Pool>, l: seq<Load>, k: nat): (r: seq<Pool>)
    requires k <= |l| == |was|
  {
    if k == 0 then [] else Unmerged(was, l, k - 1) + if l[k - 1].merges then [] else [was[k - 1]]
  }

  lemma {:induction false} NothingUnmerged(was: seq<Pool>, l: seq<Load>, j: nat, k: nat)
    requires j <= k <= |l| == |was| && forall i {:trigger l[i]} :: j <= i < k ==> !l[i].merges
    ensures Unmerged(was, l, k) == Unmerged(was, l, j) + was[j..k]
  {
    if k > j {
      NothingUnmerged(was, l, j, k - 1);
      assert was[j..k] == was[j..k - 1] + [was[k - 1]];
    }
  }

  /** The pools from slot `i` of the list on have still to be visited. */
  ghost predicate ToVisit(pools: seq<Pool>, was: seq<Pool>, l: seq<Load>, i: nat, j: nat)
    reads pools
  {
    && |was| == |l| && i <= |pools| && j <= |was| && pools[i..] == was[j..]
    && forall k {:trigger was[k]} {:trigger l[k]} :: j <= k < |was| ==> was[k] in pools && LoadOf(was[k]) == l[k]
  }

  /** The merged pool has room for all that is still to come. */
  ghost predicate RoomAhead(p: Pool, l: seq<Load>, j: nat)
    reads p
    requires j <= |l|
  {
    && !p.Full() && !p.fragmented
    && Content(l, |l|) - Content(l, j) <= p.remain && Slots(l, |l|) - Slots(l, j) <= FreeSlots(p)
  }

  /** The merged pool is as it was made. */
  ghost predicate Untouched(p: Pool, l: seq<Load>, n: nat, j: nat)
    reads p
    requires n <= |l| && j <= |l|
  {
    && !p.Full() && !p.fragmented && p.Empty()
    && (Content(l, n) <= p.remain || p.remain == POOL_SIZE_MERGED_MAX) && Slots(l, n) <= FreeSlots(p)
    && forall i {:trigger l[i]} :: 0 <= i < j ==> !l[i].merges
  }

  lemma RoomFor(p: Pool, q: Pool, content: int, slots: int)
    requires !p.Full() && !p.fragmented && q.poolSize - q.remain <= content <= p.remain
    requires |q.used| <= slots <= FreeSlots(p)
    ensures RoomForAll(p, q)
  {
  }

  /** All that is examined is all there is, if it fits. */
  lemma AllFits(p: Pool, l: seq<Load>, n: nat)
    requires LoadsOk(l) && Examined(l, n) && Content(l, |l|) <= POOL_SIZE_MERGED_MAX && Untouched(p, l, n, 0)
    ensures RoomAhead(p, l, 0)
  {
    SumsGrow(l, n, |l|);
    forall i | n <= i < |l| ensures !l[i].merges {
    }
    NothingMerges(l, n, |l|);
  }

  /** A merged pool that is full has taken everything, if everything fits. */
  lemma FullTakesAll(p: Pool, was: seq<Pool>, l: seq<Load>, j: nat)
    requires LoadsOk(l) && j <= |l| == |was| && p.Full() && (p.remain > 0 ==> FreeSlots(p) == 0)
    requires Content(l, |l|) - Content(l, j) <= p.remain && Slots(l, |l|) - Slots(l, j) <= FreeSlots(p)
    ensures Unmerged(was, l, |l|) == Unmerged(was, l, j) + was[j..]
  {
    SumsGrow(l, j, |l|);
    forall i | j <= i < |l| ensures !l[i].merges {
    }
    NothingUnmerged(was, l, j, |l|);
    assert was[j..|l|] == was[j..];
  }

  /** One pool is emptied into the merged one as far as that goes, and destroyed if it is empty then. */
  method MergeOne(exa: Exa, i: nat, p: Pool, memory: bool) returns (gone: bool)
    requires exa.ValidWith({p}) && i < |exa.pools|
    modifies exa`pools, exa.Repr
    ensures exa.ValidWith({p}) && exa.all == old(exa.all) && exa.Repr == old(exa.Repr)
    ensures exa.light == old(exa.light) && exa.heavy == old(exa.heavy)
    ensures exa.pools == if gone then Drop(old(exa.pools), i) else old(exa.pools)
    ensures var q := old(exa.pools[i]);
            && (gone <==> q.Empty()) && p.remain == old(p.remain) + old(q.remain) - q.remain
            && (p.Empty() ==> old(p.Empty()) && q.remain == old(q.remain))
            && (old(RoomForAll(p, q)) ==> Emptied(p, q, old(FreeSlots(p) - FilledSlots(q))))
            && Blocked(GapsOf(p), p.poolSize, q.live, memory, old(|p.used|))
            && NoRoomier(old(GapsOf(p)), GapsOf(p), p.poolSize)
            && Shut(p.bitmapFull, p.T(), old(p.bitmapFull), old(p.T()), memory)
    ensures forall q {:trigger q.remain} {:trigger q.live} :: q in old(Set(exa.pools)) && q != old(exa.pools[i]) ==>
              q.remain == old(q.remain) && q.used == old(q.used) && q.live == old(q.live)
    ensures Set(exa.pools) <= old(Set(exa.pools)) && (old(exa.NoneEmpty()) ==> exa.NoneEmpty())
    ensures old(exa.Open(memory)) ==> exa.Open(memory)
  {
    hide Good, RoomForAll, Emptied, Blocked, NoRoomier;
    ghost var pools, gonePool := Set(exa.pools), exa.pools[i];
    assert p !in pools && gonePool in pools by {
      assert pools !! {p};
    }
    MoveOut(exa, i, p, memory, {p});
    forall q | q in pools && q != gonePool
      ensures q.remain == old(q.remain) && q.used == old(q.used) && q.live == old(q.live)
      ensures q.bitmapFull == old(q.bitmapFull)
    {
      assert q in Set(exa.pools) + {p} && q != p && q.remain == q.remain;
    }
    gone := exa.pools[i].Empty();
    if gone {
      Destroy(exa, i, {p});
    }
    if old(exa.NoneEmpty()) {
      forall q | q in exa.pools ensures !q.Empty() {
        assert q in Set(exa.pools) && q in pools;
      }
    }
    if old(exa.Open(memory)) {
      forall q | q in exa.pools ensures OpenPool(q, memory) {
        assert q in Set(exa.pools) && q in pools && old(OpenPool(q, memory));
      }
    }
  }

  /** What is left of the first `j` pools fits the merged pool no more. */
  ghost predicate AllBlocked(g: Gaps, n: int, lives: map<Pool, Live>, was: seq<Pool>, l: seq<Load>, j: nat,
                             memory: bool, slots: int) {
    && Distinct(was) && |was| == |l| && j <= |l| && slots <= |g.table.used|
    && forall k {:trigger was[k]} :: 0 <= k < j && l[k].merges && was[k] in lives ==>
         Blocked(g, n, lives[was[k]], memory, slots)
  }

  ghost predicate LeftBlocked(pools: seq<Pool>, p: Pool, was: seq<Pool>, l: seq<Load>, j: nat, memory: bool,
                              slots: int)
    reads pools, p
  {
    && AllBlocked(GapsOf(p), p.poolSize, LivesOf(Set(pools)), was, l, j, memory, slots)
    && (p.bitmapFull ==> !memory && LastUsed(p.T())) && slots <= |p.used|
  }

  /** Emptying pool `j` into the merged pool opens no gap for what the pools before it hold. */
  lemma BlockedNext(g: Gaps, g': Gaps, n: int, lives: map<Pool, Live>, lives': map<Pool, Live>, was: seq<Pool>,
                    l: seq<Load>, j: nat, memory: bool, slots: int)
    requires AllBlocked(g, n, lives, was, l, j, memory, slots) && NoRoomier(g, g', n) && j < |was|
    requires forall q {:trigger lives'[q]} :: q in lives' && q != was[j] ==> q in lives && lives'[q] == lives[q]
    requires was[j] in lives' && l[j].merges ==> Blocked(g', n, lives'[was[j]], memory, slots)
    ensures AllBlocked(g', n, lives', was, l, j + 1, memory, slots)
  {
    hide Blocked, NoRoomier;
    NoRoomierLonger(g, g', n);
    forall k | 0 <= k < j && l[k].merges && was[k] in lives' ensures Blocked(g', n, lives'[was[k]], memory, slots) {
      assert lives'[was[k]] == lives[was[k]] && was[k] != was[j];
      StaysBlocked(g, g', n, lives[was[k]], memory, slots);
    }
  }

  lemma LeftFacts(pools: seq<Pool>, p: Pool, was: seq<Pool>, l: seq<Load>, j: nat, memory: bool, slots: int)
    requires LeftBlocked(pools, p, was, l, j, memory, slots)
    ensures AllBlocked(GapsOf(p), p.poolSize, LivesOf(Set(pools)), was, l, j, memory, slots)
    ensures (p.bitmapFull ==> !memory && LastUsed(GapsOf(p).table)) && slots <= |GapsOf(p).table.used|
    ensures GapsOf(p).table == p.T()
  {
  }

  lemma LeftNext(g: Gaps, full: bool, pools: seq<Pool>, p: Pool, lives: map<Pool, Live>, was: seq<Pool>, l: seq<Load>,
                 j: nat, memory: bool, slots: int)
    requires AllBlocked(g, p.poolSize, lives, was, l, j, memory, slots) && NoRoomier(g, GapsOf(p), p.poolSize)
    requires j < |was| && slots <= |g.table.used|
    requires (full ==> !memory && LastUsed(g.table)) && Shut(p.bitmapFull, p.T(), full, g.table, memory)
    requires forall q {:trigger q.live} :: q in Set(pools) && q != was[j] ==> q in lives && q.live == lives[q]
    requires Blocked(GapsOf(p), p.poolSize, was[j].live, memory, |g.table.used|)
    ensures LeftBlocked(pools, p, was, l, j + 1, memory, slots)
  {
    hide Blocked, NoRoomier, AllBlocked;
    BlockedSince(GapsOf(p), p.poolSize, was[j].live, memory, |g.table.used|, slots);
    NoRoomierLonger(g, GapsOf(p), p.poolSize);
    BlockedNext(g, GapsOf(p), p.poolSize, lives, LivesOf(Set(pools)), was, l, j, memory, slots);
  }

  lemma PassBlocked(pools: seq<Pool>, p: Pool, was: seq<Pool>, l: seq<Load>, j: nat, memory: bool, slots: int)
    requires LeftBlocked(pools, p, was, l, j, memory, slots) && j < |l| && !l[j].merges
    ensures LeftBlocked(pools, p, was, l, j + 1, memory, slots)
  {
  }

  /** A full pool takes nothing more. */
  lemma BlockedFull(pools: seq<Pool>, p: Pool, was: seq<Pool>, l: seq<Load>, j: nat, memory: bool, slots: int)
    requires LeftBlocked(pools, p, was, l, j, memory, slots) && p.Full()
    ensures LeftBlocked(pools, p, was, l, |was|, memory, slots)
  {
  }

  /** The same, on the way through the list */
  method MergeVisit(exa: Exa, i: nat, p: Pool, memory: bool, ghost was: seq<Pool>, ghost l: seq<Load>, ghost j: nat,
                    ghost slots: int)
    returns (gone: bool)
    requires exa.ValidWith({p}) && i < |exa.pools| && ToVisit(exa.pools, was, l, i, j) && j < |was|
    requires exa.pools[i] == was[j] && LeftBlocked(exa.pools, p, was, l, j, memory, slots)
    modifies exa`pools, exa.Repr
    ensures exa.ValidWith({p}) && exa.all == old(exa.all) && exa.Repr == old(exa.Repr)
    ensures exa.light == old(exa.light) && exa.heavy == old(exa.heavy)
    ensures exa.pools == if gone then Drop(old(exa.pools), i) else old(exa.pools)
    ensures Set(exa.pools) <= old(Set(exa.pools)) && (old(exa.NoneEmpty()) ==> exa.NoneEmpty())
    ensures old(exa.Open(memory)) ==> exa.Open(memory)
    ensures ToVisit(exa.pools, was, l, if gone then i else i + 1, j + 1)
    ensures LeftBlocked(exa.pools, p, was, l, j + 1, memory, slots)
    ensures var q := was[j];
            && (gone <==> q.Empty()) && p.remain == old(p.remain) + old(q.remain) - q.remain
            && (p.Empty() ==> old(p.Empty()) && q.remain == old(q.remain))
            && (old(RoomForAll(p, q)) ==> Emptied(p, q, old(FreeSlots(p) - FilledSlots(q))))
  {
    hide Exa.ValidWith, RoomForAll, Emptied, Exa.NoneEmpty, Exa.Open, Blocked, NoRoomier, LeftBlocked, AllBlocked,
         Shut, GapsOf, Mergeable, Lists.Drop, Lists.Distinct;
    LeftFacts(exa.pools, p, was, l, j, memory, slots);
    ghost var pools, gaps, full, lives := exa.pools, GapsOf(p), p.bitmapFull, LivesOf(Set(exa.pools));
    DistinctPools(exa, {p});
    gone := MergeOne(exa, i, p, memory);
    LeftNext(gaps, full, exa.pools, p, lives, was, l, j, memory, slots);
    forall k | j < k < |was| ensures LoadOf(was[k]) == l[k] {
      VisitLater(pools, was, i, j, k);
      assert was[k] in Set(pools) && old(LoadOf(was[k])) == l[k];
    }
    VisitNext(pools, exa.pools, was, l, i, j, gone);
  }

  lemma VisitNext(pools: seq<Pool>, pools': seq<Pool>, was: seq<Pool>, l: seq<Load>, i: nat, j: nat, gone: bool)
    requires Distinct(pools) && i < |pools| && j < |was| == |l| && pools[i..] == was[j..]
    requires pools' == if gone then Drop(pools, i) else pools
    requires forall k {:trigger was[k]} :: j < k < |was| ==> LoadOf(was[k]) == l[k]
    ensures ToVisit(pools', was, l, if gone then i else i + 1, j + 1)
  {
    hide Mergeable;
    forall k | j < k < |was| ensures was[k] in pools' {
      VisitLater(pools, was, i, j, k);
    }
    assert pools[i..][1..] == was[j..][1..];
    assert pools[i + 1..] == Drop(pools, i)[i..] == was[j + 1..];
  }

  /** Slot `i` has the first pool that can be merged. */
  ghost predicate FirstAt(l: seq<Load>, i: nat) {
    i < |l| && l[i].merges && forall m {:trigger l[m]} :: 0 <= m < i ==> !l[m].merges
  }

  /** The first pool that can be merged is gone, if it was one of the first `j`. */
  ghost predicate FirstGone(pools: seq<Pool>, was: seq<Pool>, l: seq<Load>, j: nat) {
    |was| == |l| && forall i: nat {:trigger FirstAt(l, i)} :: i < j && FirstAt(l, i) ==> was[i] !in pools
  }

  lemma FirstNext(pools: seq<Pool>, pools': seq<Pool>, was: seq<Pool>, l: seq<Load>, j: nat)
    requires FirstGone(pools, was, l, j) && Set(pools') <= Set(pools) && j < |l|
    requires FirstAt(l, j) ==> was[j] !in pools'
    ensures FirstGone(pools', was, l, j + 1)
    ensures l[j].merges ==> FirstGone(pools', was, l, |was|)
  {
    forall i: nat | i < j && FirstAt(l, i) ensures was[i] !in pools' {
      assert was[i] !in Set(pools);
    }
  }

  /** One pool that can be merged. When everything fits, it is gone; and so is the first one in any case. */
  method MergeNext(exa: Exa, i: nat, p: Pool, memory: bool, ghost was: seq<Pool>, ghost l: seq<Load>, ghost n: nat,
                   ghost j: nat, ghost fits: bool)
    returns (gone: bool)
    requires exa.ValidWith({p}) && i < |exa.pools| && LoadsOk(l) && ToVisit(exa.pools, was, l, i, j) && l[j].merges
    requires n <= |l| && 0 < Slack(l, n) && (fits ==> RoomAhead(p, l, j)) && (p.Empty() ==> Untouched(p, l, n, j))
    requires LeftBlocked(exa.pools, p, was, l, j, memory, Slots(l, n))
    modifies exa`pools, exa.Repr
    ensures exa.ValidWith({p}) && exa.all == old(exa.all) && exa.Repr == old(exa.Repr)
    ensures exa.light == old(exa.light) && exa.heavy == old(exa.heavy)
    ensures exa.pools == if gone then Drop(old(exa.pools), i) else old(exa.pools)
    ensures Set(exa.pools) <= old(Set(exa.pools))
    ensures !p.Empty() && ToVisit(exa.pools, was, l, if gone then i else i + 1, j + 1)
    ensures LeftBlocked(exa.pools, p, was, l, j + 1, memory, Slots(l, n))
    ensures old(p.Empty()) ==> gone
    ensures gone ==> was[j] !in exa.pools
    ensures fits ==>
              gone && if p.Full() then Unmerged(was, l, |l|) == Unmerged(was, l, j) + was[j + 1..]
                      else RoomAhead(p, l, j + 1)
    ensures old(exa.NoneEmpty()) ==> exa.NoneEmpty()
    ensures old(exa.Open(memory)) ==> exa.Open(memory)
  {
    hide Exa.ValidWith, RoomForAll, RoomLeft, RoomAhead, Untouched, LoadsOk, Exa.NoneEmpty, Exa.Open, FreeSlots,
         FilledSlots, LeftBlocked, Lists.Drop, Lists.Distinct, Mergeable, LoadOf;
    ghost var q, slots := exa.pools[i], FreeSlots(p) - FilledSlots(exa.pools[i]);
    assert exa.pools[i..][0] == was[j..][0] == q;
    RoomNext(p, q, l, n, j, fits);
    DistinctPools(exa, {p});
    ghost var before := exa.pools;
    gone := MergeVisit(exa, i, p, memory, was, l, j, Slots(l, n));
    if gone { GoneFrom(before, i); }
    if fits { RoomAfter(p, was, l, j, slots); }
  }

  lemma DistinctPools(exa: Exa, extra: set<Pool>)
    requires exa.ValidWith(extra)
    ensures Distinct(exa.pools)
  {
    hide Good;
  }

  /** The pools behind slot `i` are others, and stay in the list. */
  lemma VisitLater(pools: seq<Pool>, was: seq<Pool>, i: nat, j: nat, k: nat)
    requires Distinct(pools) && i < |pools| && j < k < |was| && pools[i..] == was[j..]
    ensures was[k] != pools[i] && was[k] in pools && was[k] in Drop(pools, i)
    ensures pools[i + 1..] == was[j + 1..] == Drop(pools, i)[i..]
  {
    assert was[k] == was[j..][k - j] == pools[i + k - j] == Drop(pools, i)[i + k - j - 1];
    assert pools[i + 1..] == pools[i..][1..];
  }

  /** The merged pool takes everything from the first pool, and from each one if everything fits. */
  lemma RoomNext(p: Pool, q: Pool, l: seq<Load>, n: nat, j: nat, fits: bool)
    requires LoadsOk(l) && n <= |l| && j < |l| && l[j].merges && LoadOf(q) == l[j] && 0 < Slack(l, n)
    requires (fits ==> RoomAhead(p, l, j)) && (p.Empty() ==> Untouched(p, l, n, j))
    ensures fits || p.Empty() ==> RoomForAll(p, q)
    ensures fits ==>
              && Content(l, |l|) - Content(l, j + 1) <= p.remain - (q.poolSize - q.remain)
              && Slots(l, |l|) - Slots(l, j + 1) <= FreeSlots(p) - FilledSlots(q)
    ensures q.remain < q.poolSize
  {
    SumsGrow(l, j, |l|);
    if fits {
      RoomFor(p, q, l[j].content, l[j].slots);
    } else if p.Empty() {
      FirstFits(l, n, j);
      RoomFor(p, q, l[j].content, l[j].slots);
    }
  }

  lemma GoneFrom(pools: seq<Pool>, i: nat)
    requires Distinct(pools) && i < |pools|
    ensures pools[i] !in Drop(pools, i)
  {
  }

  lemma RoomAfter(p: Pool, was: seq<Pool>, l: seq<Load>, j: nat, slots: int)
    requires LoadsOk(l) && j < |l| == |was| && RoomLeft(p, slots) && l[j].merges
    requires Content(l, |l|) - Content(l, j + 1) <= p.remain && Slots(l, |l|) - Slots(l, j + 1) <= slots
    ensures if p.Full() then Unmerged(was, l, |l|) == Unmerged(was, l, j) + was[j + 1..] else RoomAhead(p, l, j + 1)
  {
    if p.Full() {
      FullTakesAll(p, was, l, j + 1);
    }
  }

  /** One step over the list */
  lemma PassBy(pools: seq<Pool>, was: seq<Pool>, l: seq<Load>, i: nat, j: nat)
    requires ToVisit(pools, was, l, i, j) && i < |pools|
    ensures j < |was| && pools[i] == was[j] && Mergeable(pools[i]) == l[j].merges
    ensures ToVisit(pools, was, l, i + 1, j + 1)
    ensures !l[j].merges ==> Unmerged(was, l, j + 1) == Unmerged(was, l, j) + [was[j]]
    ensures pools[..i + 1] == pools[..i] + [pools[i]]
  {
    assert pools[i..][0] == was[j..][0];
    assert pools[i + 1..] == pools[i..][1..] == was[j + 1..];
  }

  lemma NeverEmpty(p: Pool, l: seq<Load>, n: nat)
    requires n <= |l| && 0 < Slack(l, n) && (p.Empty() ==> Untouched(p, l, n, |l|))
    ensures !p.Empty()
  {
    if p.Empty() { NothingMerges(l, 0, n); }
  }

  /** The state of the loop: `i` is the slot in the list, `j` the slot in the list as it was. */
  ghost predicate MergeState(exa: Exa, p: Pool, was: seq<Pool>, l: seq<Load>, n: nat, i: nat, j: nat, fits: bool,
                             memory: bool)
    reads exa`pools, exa.pools, p
  {
    && |was| == |l| && n <= |l| && LoadsOk(l) && 0 < Slack(l, n) && ToVisit(exa.pools, was, l, i, j)
    && (p.Empty() ==> Untouched(p, l, n, j)) && LeftBlocked(exa.pools, p, was, l, j, memory, Slots(l, n))
    && (fits ==> RoomAhead(p, l, j) && exa.pools[..i] == Unmerged(was, l, j))
    && FirstGone(exa.pools, was, l, j) && ((forall m {:trigger l[m]} :: 0 <= m < j ==> !l[m].merges) ==> p.Empty())
  }

  /** What merging achieves */
  ghost predicate MergeResult(exa: Exa, p: Pool, was: seq<Pool>, l: seq<Load>, n: nat, fits: bool, memory: bool)
    reads exa`pools, exa.pools, p
  {
    && !p.Empty() && |was| == |l| && n <= |l| && LeftBlocked(exa.pools, p, was, l, |was|, memory, Slots(l, n))
    && (fits ==> exa.pools == Unmerged(was, l, |l|)) && FirstGone(exa.pools, was, l, |was|)
  }

  /** One round of the loop; `done` is set once the merged pool is full. */
  method MergeStep(exa: Exa, p: Pool, i: nat, memory: bool, ghost was: seq<Pool>, ghost l: seq<Load>, ghost n: nat,
                   ghost j: nat, ghost fits: bool)
    returns (i': nat, done: bool)
    requires exa.ValidWith({p}) && i < |exa.pools| && MergeState(exa, p, was, l, n, i, j, fits, memory)
    modifies exa`pools, exa.Repr
    ensures exa.ValidWith({p}) && exa.all == old(exa.all) && exa.Repr == old(exa.Repr)
    ensures exa.light == old(exa.light) && exa.heavy == old(exa.heavy)
    ensures Set(exa.pools) <= old(Set(exa.pools)) && (old(exa.NoneEmpty()) ==> exa.NoneEmpty())
    ensures old(exa.Open(memory)) ==> exa.Open(memory)
    ensures |exa.pools| - i' == old(|exa.pools|) - i - 1
    ensures if done then MergeResult(exa, p, was, l, n, fits, memory)
            else MergeState(exa, p, was, l, n, i', j + 1, fits, memory)
  {
    hide Exa.ValidWith, RoomAhead, Untouched, LoadsOk, Exa.NoneEmpty, Exa.Open, LeftBlocked, FirstGone;
    ghost var before := exa.pools;
    PassBy(exa.pools, was, l, i, j);
    done := false;
    if Mergeable(exa.pools[i]) {
      var gone := MergeNext(exa, i, p, memory, was, l, n, j, fits);
      FirstNext(before, exa.pools, was, l, j);
      i' := if gone then i else i + 1;
      done := p.Full();
      if done { BlockedFull(exa.pools, p, was, l, j + 1, memory, Slots(l, n)); }
      assert fits ==> exa.pools == before[..i] + before[i + 1..] && before[i + 1..] == was[j + 1..];
    } else {
      PassRoom(p, l, n, j, fits);
      PassBlocked(exa.pools, p, was, l, j, memory, Slots(l, n));
      FirstNext(before, exa.pools, was, l, j);
      i' := i + 1;
    }
  }

  /** All the pools that can be merged, into the new pool */
  method MergeInto(exa: Exa, p: Pool, memory: bool, ghost was: seq<Pool>, ghost l: seq<Load>, ghost n: nat)
    requires exa.ValidWith({p}) && exa.pools == was && l == Loads(was) && LoadsOk(l) && Examined(l, n)
    requires 0 < Slack(l, n)
    requires Untouched(p, l, n, 0) && |p.used| == Slots(l, n)
    modifies exa`pools, exa.Repr
    ensures exa.ValidWith({p}) && exa.all == old(exa.all) && exa.Repr == old(exa.Repr)
    ensures exa.light == old(exa.light) && exa.heavy == old(exa.heavy)
    ensures Set(exa.pools) <= Set(was) && (old(exa.NoneEmpty()) ==> exa.NoneEmpty())
    ensures old(exa.Open(memory)) ==> exa.Open(memory)
    ensures MergeResult(exa, p, was, l, n, Content(l, |l|) <= POOL_SIZE_MERGED_MAX, memory)
  {
    hide Exa.ValidWith, MergeState, MergeResult, Exa.NoneEmpty, Exa.Open, Untouched, LoadsOk, Examined;
    DistinctPools(exa, {p});
    ghost var j, fits := 0, Content(l, |l|) <= POOL_SIZE_MERGED_MAX;
    MergeStart(exa, p, was, l, n, fits, memory);
    var i, done := 0, false;
    while i < |exa.pools| && !done
      invariant 0 <= i <= |exa.pools| && exa.ValidWith({p}) && exa.all == old(exa.all) && exa.Repr == old(exa.Repr)
      invariant exa.light == old(exa.light) && exa.heavy == old(exa.heavy)
      invariant Set(exa.pools) <= Set(was) && (old(exa.NoneEmpty()) ==> exa.NoneEmpty())
      invariant old(exa.Open(memory)) ==> exa.Open(memory)
      invariant if done then MergeResult(exa, p, was, l, n, fits, memory)
                else MergeState(exa, p, was, l, n, i, j, fits, memory)
      decreases |exa.pools| - i
    {
      i, done := MergeStep(exa, p, i, memory, was, l, n, j, fits);
      j := j + 1;
    }
    if !done { MergeEnd(exa, p, was, l, n, j, fits, memory); }
  }

  lemma NewTarget(exa: Exa, p: Pool, l: seq<Load>, n: nat, bitmap: nat)
    requires exa.ValidWith({p}) && p.Empty() && !p.fragmented && !p.bitmapFull && |p.used| == BITS * bitmap
    requires n <= |l| && Slots(l, n) == BITS * bitmap && 0 < p.remain
    requires Content(l, n) <= p.remain || p.remain == POOL_SIZE_MERGED_MAX
    ensures Untouched(p, l, n, 0)
  {
    hide Good, Pool.Valid;
    Footprint(p, Set(exa.pools) + {p}, exa.all, exa.Repr);
    UsedSpace(p);
  }

  lemma MergeStart(exa: Exa, p: Pool, was: seq<Pool>, l: seq<Load>, n: nat, fits: bool, memory: bool)
    requires exa.pools == was && l == Loads(was) && LoadsOk(l) && Examined(l, n) && 0 < Slack(l, n)
    requires Distinct(was) && Untouched(p, l, n, 0) && |p.used| == Slots(l, n)
    requires fits ==> Content(l, |l|) <= POOL_SIZE_MERGED_MAX
    ensures MergeState(exa, p, was, l, n, 0, 0, fits, memory)
  {
    hide LoadsOk, Examined, Untouched, RoomAhead;
    ExaminedWithin(l, n);
    UntouchedOpen(p, l, n);
    assert was[0..] == was && was[..0] == [];
    if fits { AllFits(p, l, n); }
  }

  lemma UntouchedOpen(p: Pool, l: seq<Load>, n: nat)
    requires n <= |l| && Untouched(p, l, n, 0)
    ensures !p.bitmapFull && p.Empty()
  {
  }

  lemma ExaminedWithin(l: seq<Load>, n: nat)
    requires Examined(l, n)
    ensures n <= |l|
  {
  }

  lemma MergeEnd(exa: Exa, p: Pool, was: seq<Pool>, l: seq<Load>, n: nat, j: nat, fits: bool, memory: bool)
    requires MergeState(exa, p, was, l, n, |exa.pools|, j, fits, memory)
    ensures MergeResult(exa, p, was, l, n, fits, memory)
  {
    hide Untouched;
    assert |exa.pools[|exa.pools|..]| == |was[j..]|;
    NeverEmpty(p, l, n);
  }

  lemma PassRoom(p: Pool, l: seq<Load>, n: nat, j: nat, fits: bool)
    requires n <= |l| && j < |l| && !l[j].merges && (p.Empty() ==> Untouched(p, l, n, j))
    requires fits ==> RoomAhead(p, l, j)
    ensures (p.Empty() ==> Untouched(p, l, n, j + 1)) && (fits ==> RoomAhead(p, l, j + 1))
  {
  }

  /** A new pool of this size, filled from the list and appended to it */
  method MergeNew(exa: Exa, size: nat, bitmap: nat, k: Kernel, ghost was: seq<Pool>, ghost l: seq<Load>, ghost n: nat)
    returns (merged: Pool?)
    requires exa.Valid() && exa.pools == was && l == Loads(was) && LoadsOk(l) && Examined(l, n) && n <= |l|
    requires 0 < Slack(l, n)
    requires 0 < size <= POOL_SIZE_MERGED_MAX && size % PAGE_SIZE == 0 && 0 < bitmap && BITS * bitmap == Slots(l, n)
    requires Content(l, n) <= size || size == POOL_SIZE_MERGED_MAX
    modifies exa`pools, exa`light, exa`heavy, exa`all, exa`Repr, exa.Repr
    ensures exa.Valid() && exa.all == old(exa.all) && fresh(exa.Repr - old(exa.Repr))
    ensures k.buffers ==> merged != null
    ensures old(exa.NoneEmpty()) ==> exa.NoneEmpty()
    ensures old(exa.Open(k.memory)) ==> exa.Open(k.memory)
    ensures merged == null ==> exa.pools == was && Rests(exa.pools) == old(Rests(exa.pools))
    ensures merged != null ==>
              && fresh(merged) && exa.pools != [] && exa.pools[|exa.pools| - 1] == merged && !merged.Empty()
              && Set(exa.pools[..|exa.pools| - 1]) <= Set(was) && merged.poolSize == size
              && LeftBlocked(exa.pools[..|exa.pools| - 1], merged, was, l, |was|, k.memory, Slots(l, n))
              && FirstGone(exa.pools, was, l, |was|)
              && (Content(l, |l|) <= POOL_SIZE_MERGED_MAX ==> exa.pools == Unmerged(was, l, |l|) + [merged])
  {
    hide Good, RoomForAll, Exa.ValidWith, LoadsOk, Examined, Untouched, LeftBlocked, Exa.NoneEmpty, Exa.Open, OpenPool,
         FirstGone;
    merged := AddExtra(exa, size, bitmap, k.buffers, {});
    if merged == null {
      return;
    }
    var p: Pool := merged;
    assert {} + {p} == {p} && {p} - {p} == {};
    NewTarget(exa, p, l, n, bitmap);
    MergeInto(exa, p, k.memory, was, l, n);
    MergedOpen(exa.pools, p, was, l, n, k.memory);
    FirstAway(exa.pools, p, was, l);
    AppendExtra(exa, p, {p}, k.memory);
  }

  lemma FirstAway(pools: seq<Pool>, p: Pool, was: seq<Pool>, l: seq<Load>)
    requires FirstGone(pools, was, l, |was|) && p !in was
    ensures FirstGone(pools + [p], was, l, |was|)
  {
    forall i: nat | i < |was| && FirstAt(l, i) ensures was[i] !in pools + [p] {
      assert was[i] in was && was[i] != p;
    }
  }

  /** `tegra_exa_merge_pools`: unless too little is wasted, or the buffer is refused, a new pool goes to
      the end of the list that pools have been emptied into; only empty pools are destroyed. If all
      that can be merged fits, exactly the pools that can be merged are gone; and in any case what such
      a pool has left fits no gap of the new pool, unless that is full; and it is full for lack of space only
      if there was memory for its bitmap. */
  method MergePools(exa: Exa, k: Kernel) returns (merged: Pool?)
    requires exa.Valid()
    modifies exa`pools, exa`light, exa`heavy, exa`all, exa`Repr, exa.Repr
    ensures exa.Valid() && exa.all == old(exa.all) && fresh(exa.Repr - old(exa.Repr))
    ensures old(exa.NoneEmpty()) ==> exa.NoneEmpty()
    ensures old(exa.Open(k.memory)) ==> exa.Open(k.memory)
    ensures forall n {:trigger Examined(old(Loads(exa.pools)), n)} :: Examined(old(Loads(exa.pools)), n) ==>
              && (Slack(old(Loads(exa.pools)), n) < 64 * 1024 ==> merged == null)
              && (Slack(old(Loads(exa.pools)), n) >= 64 * 1024 && k.buffers ==> merged != null)
    ensures merged == null ==> exa.pools == old(exa.pools) && Rests(exa.pools) == old(Rests(exa.pools))
    ensures merged != null ==>
              && fresh(merged) && exa.pools != [] && exa.pools[|exa.pools| - 1] == merged && !merged.Empty()
              && forall q {:trigger q in exa.pools} :: q in exa.pools ==> q == merged || q in old(exa.pools)
    ensures var was, l := old(exa.pools), old(Loads(exa.pools));
            forall n: nat, i: nat {:trigger Examined(l, n), was[i]} ::
              merged != null && Examined(l, n) && i < |was| && l[i].merges && was[i] in exa.pools ==>
              n <= |l| && Blocked(GapsOf(merged), merged.poolSize, was[i].live, k.memory, Slots(l, n))
    ensures merged != null && merged.bitmapFull ==> !k.memory && LastUsed(merged.T())
    ensures forall n {:trigger Examined(old(Loads(exa.pools)), n)} ::
              merged != null && Examined(old(Loads(exa.pools)), n) ==>
                var content := Content(old(Loads(exa.pools)), n);
                && merged.poolSize % 4096 == 0
                && if content <= 1024 * 1024 then content <= merged.poolSize < content + 4096
                   else merged.poolSize == 1024 * 1024
    ensures merged != null ==> FirstGone(exa.pools, old(exa.pools), old(Loads(exa.pools)), old(|exa.pools|))
    ensures var l := old(Loads(exa.pools));
            merged != null && Content(l, |l|) <= 1024 * 1024 ==>
              exa.pools == Unmerged(old(exa.pools), l, |l|) + [merged]
  {
    hide Good, RoomForAll, Exa.ValidWith, LoadsOk, Examined, Untouched, Exa.NoneEmpty, Exa.Open, LeftBlocked, Blocked,
         FirstGone;
    ghost var was, l := exa.pools, Loads(exa.pools);
    LoadsAre(exa);
    var size, bitmap;
    ghost var n;
    size, bitmap, n := MergeSize(exa);
    forall n' | Examined(l, n') ensures n' == n {
      ExaminedOnce(l, n, n');
    }
    if bitmap == 0 {
      return null;
    }
    merged := MergeNew(exa, size, bitmap, k, was, l, n);
    if merged != null { MergedList(exa.pools, merged, was, l, n, k.memory); }
  }

  lemma MergedOpen(pools: seq<Pool>, p: Pool, was: seq<Pool>, l: seq<Load>, n: nat, memory: bool)
    requires n <= |l| && LeftBlocked(pools, p, was, l, |was|, memory, Slots(l, n))
    ensures OpenPool(p, memory)
  {
  }

  /** The list after merging */
  lemma MergedList(pools: seq<Pool>, p: Pool, was: seq<Pool>, l: seq<Load>, n: nat, memory: bool)
    requires pools != [] && pools[|pools| - 1] == p && Set(pools[..|pools| - 1]) <= Set(was) && p !in was
    requires n <= |l| && LeftBlocked(pools[..|pools| - 1], p, was, l, |was|, memory, Slots(l, n))
    ensures forall q {:trigger q in pools} :: q in pools ==> q == p || q in was
    ensures |l| == |was| && forall k {:trigger was[k]} :: 0 <= k < |was| && l[k].merges && was[k] in pools ==>
              Blocked(GapsOf(p), p.poolSize, was[k].live, memory, Slots(l, n))
    ensures p.bitmapFull ==> !memory && LastUsed(p.T())
  {
    hide Blocked;
    forall q | q in pools ensures q == p || q in Set(pools[..|pools| - 1]) {
      assert pools == pools[..|pools| - 1] + [p];
    }
  }

  lemma ExaminedOnce(l: seq<Load>, n: nat, k: nat)
    requires Examined(l, n) && Examined(l, k)
    ensures n == k
  {
  }

  method AppendExtra(exa: Exa, p: Pool, extra: set<Pool>, ghost memory: bool)
    requires exa.ValidWith(extra) && p in extra
    modifies exa`pools
    ensures exa.ValidWith(extra - {p}) && exa.pools == old(exa.pools) + [p]
    ensures old(exa.NoneEmpty()) && !p.Empty() ==> exa.NoneEmpty()
    ensures old(exa.Open(memory)) && OpenPool(p, memory) ==> exa.Open(memory)
  {
    hide Good;
    assert Set(exa.pools + [p]) + (extra - {p}) == Set(exa.pools) + extra;
    exa.pools := exa.pools + [p];
  }

  // ---- Draining light pools into heavy ones -------------------------------------------------------

  const MAX_LIGHT := 5
  const MAX_HEAVY := 16

  /** The order of the two lists: most space first, or least space first. */
  predicate Sooner(p: Pool, q: Pool, lightest: bool)
    reads p`remain, q`remain
  {
    if lightest then q.remain < p.remain else q.remain > p.remain
  }

  ghost predicate Ranked(l: seq<Pool>, lightest: bool)
    reads l`remain
  {
    Distinct(l) && forall i, j {:trigger l[i], l[j]} :: 0 <= i < j < |l| ==>
      if lightest then l[i].remain >= l[j].remain else l[i].remain <= l[j].remain
  }

  /** How a pool enters a list: ahead of the first one that it beats, or else at the end, if there is room. */
  ghost predicate Entered(l: seq<Pool>, p: Pool, cap: nat, lightest: bool, r: seq<Pool>, out: Pool?, shifted: bool)
    reads p`remain, l`remain
  {
    && (shifted <==> l != [] && Sooner(p, l[|l| - 1], lightest))
    && (!shifted ==> r == (if |l| < cap then l + [p] else l) && (out == p <==> |l| == cap))
    && r != [] && r[0] == (if l == [] || Sooner(p, l[0], lightest) then p else l[0])
  }

  /** One pool enters a ranked list of at most `cap` pools. `out` is what finds no room: nothing, the
      last pool, or `p` itself. */
  method Rank(l: seq<Pool>, p: Pool, cap: nat, lightest: bool) returns (r: seq<Pool>, out: Pool?, shifted: bool)
    requires Ranked(l, lightest) && p !in l && |l| <= cap && 0 < cap
    ensures Entered(l, p, cap, lightest, r, out, shifted)
    ensures Ranked(r, lightest) && |r| <= cap
    ensures |r| == if out == null then |l| + 1 else |l|
    ensures forall q {:trigger q in r} :: q in r <==> (q in l || q == p) && q != out
    ensures out != null ==> |l| == cap && (out == p || out in l)
  {
    hide Ranked, Entered;
    var i := 0;
    while i < |l| && !Sooner(p, l[i], lightest)
      invariant i <= |l|
      invariant forall k {:trigger l[k]} :: 0 <= k < i ==> !Sooner(p, l[k], lightest)
    {
      i := i + 1;
    }
    shifted := i < |l|;
    var whole := l[..i] + [p] + l[i..];
    WholeRanked(l, p, i, whole, lightest);
    EnteredAt(l, p, i, whole, cap, lightest);
    if |whole| > cap {
      r, out := whole[..cap], whole[cap];
      LastOut(whole, cap, lightest);
    } else {
      r, out := whole, null;
    }
  }

  lemma WholeRanked(l: seq<Pool>, p: Pool, i: nat, whole: seq<Pool>, lightest: bool)
    requires Ranked(l, lightest) && p !in l && i <= |l| && whole == l[..i] + [p] + l[i..]
    requires forall k {:trigger l[k]} :: 0 <= k < i ==> !Sooner(p, l[k], lightest)
    requires i < |l| ==> Sooner(p, l[i], lightest)
    ensures Ranked(whole, lightest) && forall q {:trigger q in whole} :: q in whole <==> q in l || q == p
  {
    forall q ensures q in whole <==> q in l || q == p {
      assert l == l[..i] + l[i..];
    }
    forall a, b | 0 <= a < b < |whole| ensures whole[a] != whole[b] && !Sooner(whole[b], whole[a], lightest) {
      var x, y := if a < i then a else a - 1, if b < i then b else b - 1;
      assert (a != i ==> whole[a] == l[x]) && (b != i ==> whole[b] == l[y]) && whole[i] == p;
      assert a == i < |l| ==> l[i] == l[y] || !Sooner(l[y], l[i], lightest);
    }
  }

  lemma EnteredAt(l: seq<Pool>, p: Pool, i: nat, whole: seq<Pool>, cap: nat, lightest: bool)
    requires Ranked(l, lightest) && i <= |l| <= cap && 0 < cap && whole == l[..i] + [p] + l[i..] && p !in l
    requires forall k {:trigger l[k]} :: 0 <= k < i ==> !Sooner(p, l[k], lightest)
    requires i < |l| ==> Sooner(p, l[i], lightest)
    ensures if |whole| > cap then Entered(l, p, cap, lightest, whole[..cap], whole[cap], i < |l|)
            else Entered(l, p, cap, lightest, whole, null, i < |l|)
  {
    if i < |l| {
      assert i < |l| - 1 ==> !Sooner(l[|l| - 1], l[i], lightest);
      assert whole[|l|] == l[|l| - 1];
    } else {
      assert whole == l + [p] && whole[..|l|] == l;
    }
    assert i > 0 ==> whole[0] == l[0] && !Sooner(p, l[0], lightest);
  }

  lemma LastOut(whole: seq<Pool>, cap: nat, lightest: bool)
    requires |whole| == cap + 1 && Ranked(whole, lightest)
    ensures Ranked(whole[..cap], lightest) && whole[cap] in whole
    ensures forall q {:trigger q in whole[..cap]} :: q in whole[..cap] <==> q in whole && q != whole[cap]
  {
    forall q ensures q in whole[..cap] <==> q in whole && q != whole[cap] {
      assert whole == whole[..cap] + [whole[cap]];
      if q in whole[..cap] {
        var i :| 0 <= i < cap && whole[i] == q;
        assert whole[i] != whole[cap];
      }
    }
  }

  /** The pools that come into question, in the order of the list */
  ghost function Picked(pools: seq<Pool>, ok: set<Pool>): (r: seq<Pool>) {
    if pools == [] then [] else
      var last := pools[|pools| - 1];
      Picked(pools[..|pools| - 1], ok) + if last in ok then [last] else []
  }

  lemma PickedMore(pools: seq<Pool>, ok: set<Pool>, n: nat)
    requires n < |pools|
    ensures Picked(pools[..n + 1], ok) ==
            if pools[n] in ok then Picked(pools[..n], ok) + [pools[n]] else Picked(pools[..n], ok)
  {
    assert pools[..n + 1][..n] == pools[..n];
    assert Picked(pools[..n], ok) + [] == Picked(pools[..n], ok);
  }

  /** What a list of at most `cap` pools holds of the candidates `q`. If the first `cap + 1` of them come in their
      order already, it is the first `cap`, whatever follows; and if not, its head is the best of all. */
  ghost predicate ListOf(q: seq<Pool>, l: seq<Pool>, cap: nat, lightest: bool)
    reads q`remain, l`remain
  {
    if |q| > cap && (forall i {:trigger q[i]} :: 0 < i <= cap ==>
                       if lightest then q[i].remain <= q[i - 1].remain else q[i].remain >= q[i - 1].remain)
    then l == q[..cap]
    else forall k {:trigger q[k]} :: 0 <= k < |q| ==>
           l != [] && if lightest then q[k].remain <= l[0].remain else q[k].remain >= l[0].remain
  }

  lemma {:induction false} OrderedFirst(q: seq<Pool>, i: nat, lightest: bool)
    requires i < |q| && forall m {:trigger q[m]} :: 0 < m <= i ==> !Sooner(q[m], q[m - 1], lightest)
    ensures !Sooner(q[i], q[0], lightest)
  {
    if i > 0 { OrderedFirst(q, i - 1, lightest); }
  }

  /** The head is the best of all candidates, except exactly where the first `cap + 1` come in their order and a
      later one beats the first. */
  lemma HeadIsBest(q: seq<Pool>, l: seq<Pool>, cap: nat, lightest: bool)
    requires ListOf(q, l, cap, lightest) && 0 < cap && q != []
    ensures l != []
    ensures (exists k {:trigger q[k]} :: 0 <= k < |q| && Sooner(q[k], l[0], lightest)) <==>
              && |q| > cap && (forall i {:trigger q[i]} :: 0 < i <= cap ==> !Sooner(q[i], q[i - 1], lightest))
              && exists k {:trigger q[k]} :: cap < k < |q| && Sooner(q[k], q[0], lightest)
  {
    if |q| > cap && forall i {:trigger q[i]} :: 0 < i <= cap ==> !Sooner(q[i], q[i - 1], lightest) {
      forall k | 0 <= k <= cap ensures !Sooner(q[k], q[0], lightest) {
        OrderedFirst(q, k, lightest);
      }
      assert l[0] == q[0];
    } else {
      if |q| > cap {
        var i :| 0 < i <= cap && Sooner(q[i], q[i - 1], lightest);
        assert q[i] == q[i];
      }
      assert q[0] in q;
    }
  }

  /** On the way: `moved` says that a pool has gone ahead of another one. Until then the bound is such that a
      full list takes nothing more. */
  ghost predicate Listing(q: seq<Pool>, l: seq<Pool>, cap: nat, lightest: bool, moved: bool, full: bool, bound: int)
    reads q`remain, l`remain
  {
    if moved then
      && l != [] && (if lightest then bound <= l[0].remain else bound >= l[0].remain)
      && (forall k {:trigger q[k]} :: 0 <= k < |q| ==> !Sooner(q[k], l[0], lightest))
      && exists i {:trigger q[i]} :: 0 < i < |q| && i <= cap && Sooner(q[i], q[i - 1], lightest)
    else
      && l == q[..if |q| < cap then |q| else cap] && (full <==> |q| > cap)
      && bound == (if lightest then MAX_ULONG else 0)
      && forall i {:trigger q[i]} :: 0 < i < |q| && i <= cap ==> !Sooner(q[i], q[i - 1], lightest)
  }

  lemma ListingSkips(q: seq<Pool>, p: Pool, l: seq<Pool>, cap: nat, lightest: bool, moved: bool, bound: int)
    requires 0 < cap && Listing(q, l, cap, lightest, moved, true, bound)
    requires if lightest then p.remain <= bound else p.remain >= bound
    ensures Listing(q + [p], l, cap, lightest, moved, true, bound)
  {
    var q' := q + [p];
    if moved {
      var i :| 0 < i < |q| && i <= cap && Sooner(q[i], q[i - 1], lightest);
      assert q'[i] == q[i] && q'[i - 1] == q[i - 1];
    } else {
      assert q'[..cap] == q[..cap];
    }
  }

  /** A pool has gone ahead of another one before. */
  lemma TakesMore(q: seq<Pool>, p: Pool, l: seq<Pool>, cap: nat, lightest: bool, full: bool, bound: int,
                  r: seq<Pool>, full': bool, bound': int)
    requires Listing(q, l, cap, lightest, true, full, bound) && r != []
    requires r[0] == if Sooner(p, l[0], lightest) then p else l[0]
    requires bound' == bound || (bound' == p.remain && if lightest then p.remain < bound else p.remain > bound)
    ensures Listing(q + [p], r, cap, lightest, true, full', bound')
  {
    var q' := q + [p];
    var i :| 0 < i < |q| && i <= cap && Sooner(q[i], q[i - 1], lightest);
    assert q'[i] == q[i] && q'[i - 1] == q[i - 1];
    forall k | 0 <= k < |q'| ensures !Sooner(q'[k], r[0], lightest) {
      assert k < |q| ==> q'[k] == q[k];
    }
  }

  /** The first pool that goes ahead of another one */
  lemma TakesFirst(q: seq<Pool>, p: Pool, cap: nat, lightest: bool, full: bool, bound: int, r: seq<Pool>, full': bool,
                   bound': int)
    requires q != [] && |q| <= cap && Ranked(q, lightest) && r != []
    requires Sooner(p, q[|q| - 1], lightest) && r[0] == if Sooner(p, q[0], lightest) then p else q[0]
    requires if lightest then bound' <= p.remain else bound' >= p.remain
    ensures Listing(q + [p], r, cap, lightest, true, full', bound')
  {
    var q' := q + [p];
    assert q'[|q|] == p && q'[|q| - 1] == q[|q| - 1];
    forall k | 0 <= k < |q'| ensures !Sooner(q'[k], r[0], lightest) {
      assert k < |q| ==> q'[k] == q[k] && !Sooner(q[k], q[0], lightest);
    }
  }

  lemma ListingTakes(q: seq<Pool>, p: Pool, l: seq<Pool>, cap: nat, lightest: bool, moved: bool, full: bool, bound: int,
                     r: seq<Pool>, out: Pool?, shifted: bool)
    requires 0 < cap && Listing(q, l, cap, lightest, moved, full, bound) && |l| <= cap && p.remain < MAX_ULONG
    requires lightest || 0 < p.remain
    requires Entered(l, p, cap, lightest, r, out, shifted) && Ranked(l, lightest)
    requires !(full && if lightest then p.remain <= bound else p.remain >= bound)
    ensures var closer := if lightest then p.remain < bound else p.remain > bound;
            var bound' := if shifted && closer then p.remain else bound;
            Listing(q + [p], r, cap, lightest, moved || shifted, full || ((shifted || out == p) && |r| == cap), bound')
  {
    hide Ranked;
    var closer := if lightest then p.remain < bound else p.remain > bound;
    var bound', full' := if shifted && closer then p.remain else bound, full || ((shifted || out == p) && |r| == cap);
    var q' := q + [p];
    if moved {
      TakesMore(q, p, l, cap, lightest, full, bound, r, full', bound');
    } else if shifted {
      assert l == q;
      TakesFirst(q, p, cap, lightest, full, bound, r, full', bound');
    } else if |q| < cap {
      assert q'[..|q'|] == q' && q[..|q|] == q;
    } else {
      assert |q| == cap && q'[..cap] == q[..cap];
    }
  }

  lemma ListingEnds(q: seq<Pool>, l: seq<Pool>, cap: nat, lightest: bool, moved: bool, full: bool, bound: int)
    requires 0 < cap && Listing(q, l, cap, lightest, moved, full, bound) && Ranked(l, lightest)
    ensures ListOf(q, l, cap, lightest)
  {
    if moved {
      var i :| 0 < i < |q| && i <= cap && Sooner(q[i], q[i - 1], lightest);
      assert q[i] == q[i];
    } else if |q| <= cap {
      assert q[..|q|] == q;
    }
  }

  /** A candidate enters the list, unless a full list ignores it because of the bound. */
  method Consider(l: seq<Pool>, p: Pool, cap: nat, lightest: bool, full: bool, bound: int, ghost q: seq<Pool>,
                  ghost moved: bool)
    returns (r: seq<Pool>, out: Pool?, full': bool, bound': int, ghost moved': bool)
    requires Ranked(l, lightest) && p !in l && |l| <= cap && 0 < cap && (|l| < cap ==> !full)
    requires Listing(q, l, cap, lightest, moved, full, bound) && p.remain < MAX_ULONG && (lightest || 0 < p.remain)
    ensures Ranked(r, lightest) && |l| <= |r| <= cap && (|r| < cap ==> !full')
    ensures forall x {:trigger x in r} :: x in r <==> (x in l || x == p) && x != out
    ensures out != null ==> |r| == cap && (out == p || out in l)
    ensures Listing(q + [p], r, cap, lightest, moved', full', bound')
  {
    hide Listing, Entered, Ranked;
    if full && (if lightest then p.remain <= bound else p.remain >= bound) {
      ListingSkips(q, p, l, cap, lightest, moved, bound);
      return l, p, full, bound, moved;
    }
    var shifted;
    r, out, shifted := Rank(l, p, cap, lightest);
    ListingTakes(q, p, l, cap, lightest, moved, full, bound, r, out, shifted);
    full', bound', moved' := full || ((shifted || out == p) && |r| == cap), bound, moved || shifted;
    if shifted && (if lightest then p.remain < bound else p.remain > bound) {
      bound' := p.remain;
    }
  }

  lemma RemainBounds(exa: Exa, p: Pool)
    requires exa.Valid() && p in exa.pools
    ensures 0 <= p.remain < MAX_ULONG
  {
    hide Good, Pool.Valid;
    Footprint(p, Set(exa.pools) + {}, exa.all, exa.Repr);
    UsedSpace(p);
  }

  /** The list of light pools: up to five pools of the list that are at least half empty, the lightest
      first, carrying the `light` bit; every other bit is cleared. Fewer than five are all there are. The first
      is the lightest of all, unless six come ordered; then it is the first five, whatever follows. */
  method LightPools(exa: Exa) returns (l: seq<Pool>)
    requires exa.Valid()
    modifies exa`light, exa`heavy
    ensures exa.Valid() && Ranked(l, true) && |l| <= 5
    ensures forall p {:trigger p in l} :: p in l ==> p in exa.pools && p.remain >= p.poolSize / 2
    ensures |l| < 5 ==> forall p {:trigger p in l} :: p in exa.pools && p.remain >= p.poolSize / 2 ==> p in l
    ensures forall p {:trigger p in exa.light} :: p in exa.pools ==> (p in exa.light <==> p in l)
    ensures forall p {:trigger p in exa.heavy} :: p in exa.pools ==> p !in exa.heavy
    ensures ListOf(Picked(exa.pools, Halves(exa)), l, 5, true)
  {
    hide Good, Listing, ListOf, Entered, Exa.ValidWith, Ranked, Lists.Distinct, Halves, HalvesIn, Picked;
    var full, bound, n: nat := false, MAX_ULONG, 0;
    ghost var moved, ok := false, Halves(exa);
    l := [];
    NothingListed(exa.pools, ok, true, MAX_LIGHT);
    DistinctPools(exa, {});
    while n < |exa.pools|
      invariant n <= |exa.pools| && exa.Valid() && Ranked(l, true) && |l| <= MAX_LIGHT
      invariant forall p {:trigger p in l} :: p in l ==> p in exa.pools[..n] && p.remain >= p.poolSize / 2
      invariant |l| < MAX_LIGHT ==> !full
      invariant |l| < MAX_LIGHT ==> forall p {:trigger p in l} ::
                  p in exa.pools[..n] && p.remain >= p.poolSize / 2 ==> p in l
      invariant forall p {:trigger p in exa.light} :: p in exa.pools[..n] ==> (p in exa.light <==> p in l)
      invariant forall p {:trigger p in exa.heavy} :: p in exa.pools[..n] ==> p !in exa.heavy
      invariant Listing(Picked(exa.pools[..n], ok), l, MAX_LIGHT, true, moved, full, bound)
    {
      var p := exa.pools[n];
      Outside(exa);
      ListedBefore(exa.pools, n);
      PickedMore(exa.pools, ok, n);
      RemainBounds(exa, p);
      InHalves(exa, p);
      ghost var q := Picked(exa.pools[..n], ok);
      exa.heavy := exa.heavy - {p};
      exa.light := exa.light - {p};
      if p.remain >= p.poolSize / 2 {
        var out;
        l, out, full, bound, moved := Consider(l, p, MAX_LIGHT, true, full, bound, q, moved);
        exa.light := exa.light + {p} - {out};
      }
      n := n + 1;
    }
    assert exa.pools[..n] == exa.pools;
    ListingEnds(Picked(exa.pools, ok), l, MAX_LIGHT, true, moved, full, bound);
  }

  lemma NothingListed(pools: seq<Pool>, ok: set<Pool>, lightest: bool, cap: nat)
    ensures Listing(Picked(pools[..0], ok), [], cap, lightest, false, false, if lightest then MAX_ULONG else 0)
    ensures Ranked([], lightest)
  {
  }

  lemma InHalves(exa: Exa, p: Pool)
    requires p in exa.pools
    ensures p in Halves(exa) <==> p.remain >= p.poolSize / 2
  {
  }

  lemma ListedBefore(pools: seq<Pool>, n: nat)
    requires Distinct(pools) && n < |pools|
    ensures pools[..n + 1] == pools[..n] + [pools[n]] && pools[n] !in pools[..n]
  {
  }

  /** What can be a heavy pool */
  ghost predicate Eligible(p: Pool, light: set<Pool>, heavy: set<Pool>)
    reads p`remain, p`bitmapFull
  {
    p !in light && p !in heavy && !p.Full() && p.remain >= ALIGN
  }

  ghost function AllEligible(exa: Exa, heavy: set<Pool>): (r: set<Pool>)
    reads exa`pools, exa`light, exa.pools
  {
    set p | p in exa.pools && Eligible(p, exa.light, heavy)
  }

  /** The list of heavy pools: up to sixteen pools with space that are neither light nor were heavy
      before, the heaviest first; they get the `heavy` bit. Fewer than sixteen are all there are. The first is
      the heaviest of all, unless seventeen come ordered; then it is the first sixteen, whatever follows. */
  method HeavyPools(exa: Exa) returns (l: seq<Pool>)
    requires exa.Valid()
    modifies exa`heavy
    ensures exa.Valid() && Ranked(l, false) && |l| <= 16
    ensures forall p {:trigger p in l} ::
              p in l ==> p in exa.pools && p !in exa.light && p !in old(exa.heavy) && !p.Full()
    ensures |l| < 16 ==> forall p {:trigger p in l} ::
              p in exa.pools && Eligible(p, exa.light, old(exa.heavy)) ==> p in l
    ensures forall p {:trigger p in exa.heavy} :: p in exa.pools ==> (p in exa.heavy <==> p in old(exa.heavy) || p in l)
    ensures ListOf(Picked(exa.pools, AllEligible(exa, old(exa.heavy))), l, 16, false)
  {
    hide Good, Listing, ListOf, Entered, Exa.ValidWith, Ranked, Lists.Distinct, Picked;
    var full, bound, n: nat := false, 0, 0;
    ghost var moved, ok := false, AllEligible(exa, exa.heavy);
    l := [];
    NothingListed(exa.pools, ok, false, MAX_HEAVY);
    DistinctPools(exa, {});
    while n < |exa.pools|
      invariant n <= |exa.pools| && exa.Valid() && Ranked(l, false) && |l| <= MAX_HEAVY
      invariant forall p {:trigger p in l} :: p in l ==>
                  p in exa.pools[..n] && p !in exa.light && p !in old(exa.heavy) && !p.Full()
      invariant |l| < MAX_HEAVY ==> !full
      invariant |l| < MAX_HEAVY ==>
                  forall p {:trigger p in l} :: p in exa.pools[..n] && Eligible(p, exa.light, old(exa.heavy)) ==> p in l
      invariant forall p {:trigger p in exa.heavy} ::
                  p in exa.pools ==> (p in exa.heavy <==> p in old(exa.heavy) || p in l)
      invariant Listing(Picked(exa.pools[..n], ok), l, MAX_HEAVY, false, moved, full, bound)
    {
      var p := exa.pools[n];
      Outside(exa);
      ListedBefore(exa.pools, n);
      PickedMore(exa.pools, ok, n);
      RemainBounds(exa, p);
      ghost var q := Picked(exa.pools[..n], ok);
      if p !in exa.light && p !in exa.heavy && !p.Full() && p.remain >= ALIGN {
        assert p in ok;
        var out;
        l, out, full, bound, moved := Consider(l, p, MAX_HEAVY, false, full, bound, q, moved);
        exa.heavy := exa.heavy + {p} - {out};
      }
      n := n + 1;
    }
    assert exa.pools[..n] == exa.pools;
    ListingEnds(Picked(exa.pools, ok), l, MAX_HEAVY, false, moved, full, bound);
  }

  /** One transfer from a pool of the list to another one, in the form that defragments */
  method MoveIn(exa: Exa, to: Pool, from: Pool, memory: bool) returns (bytes: nat)
    requires exa.Valid() && to in exa.pools && from in exa.pools && to != from
    modifies exa.Repr
    ensures exa.Valid() && exa.pools == old(exa.pools) && exa.all == old(exa.all) && exa.Repr == old(exa.Repr)
    ensures exa.light == old(exa.light) && exa.heavy == old(exa.heavy)
    ensures from.remain == old(from.remain) + bytes && Stuck(to, from)
    ensures forall a, b {:trigger Stuck(a, b)} ::
              a in exa.pools && b in exa.pools && a != from && b != to && old(Stuck(a, b)) ==>
              Stuck(a, b)
    ensures forall q {:trigger q.Empty()} :: q in exa.pools && q != from && q.Empty() ==> old(q.Empty())
    ensures to.remain <= old(to.remain) && (old(exa.Open(memory)) ==> exa.Open(memory))
    ensures forall q {:trigger q.remain} :: q in exa.pools && q != from && q != to ==> q.remain == old(q.remain)
  {
    hide Good, RoomForAll, Emptied, Pool.Valid;
    ghost var s := Set(exa.pools) + {};
    Footprint(to, s, exa.all, exa.Repr);
    Footprint(from, s, exa.all, exa.Repr);
    UsedSpace(to);
    bytes := MoveEntries(to, from, false, memory, Set(exa.pools) + {}, exa.all, exa.Repr);
    forall a, b | a in exa.pools && b in exa.pools && a != from && b != to && old(Stuck(a, b)) ensures Stuck(a, b) {
      assert a != to ==> a.remain == old(a.remain) && a.bitmapFull == old(a.bitmapFull);
      assert b != from ==> b.live == old(b.live);
    }
  }

  /** As much of a light pool as the heavy pools take: what is left of it fits none of them. */
  method DrainOne(exa: Exa, from: Pool, heavy: seq<Pool>, memory: bool) returns (bytes: nat)
    requires exa.Valid() && from in exa.pools && from !in heavy
    requires forall p {:trigger p in heavy} :: p in heavy ==> p in exa.pools
    modifies exa.Repr
    ensures exa.Valid() && exa.pools == old(exa.pools) && exa.all == old(exa.all) && exa.Repr == old(exa.Repr)
    ensures exa.light == old(exa.light) && exa.heavy == old(exa.heavy)
    ensures from.remain == old(from.remain) + bytes && (bytes > 0 ==> heavy != [])
    ensures forall h {:trigger Stuck(h, from)} :: h in heavy ==> Stuck(h, from)
    ensures forall a, b {:trigger Stuck(a, b)} ::
              a in exa.pools && b in exa.pools && a != from && b !in heavy && old(Stuck(a, b)) ==>
              Stuck(a, b)
    ensures forall q {:trigger q.Empty()} :: q in exa.pools && q != from && q.Empty() ==> old(q.Empty())
    ensures old(exa.Open(memory)) ==> exa.Open(memory)
    ensures forall q {:trigger q.remain} :: q in exa.pools && q != from ==>
              q.remain <= old(q.remain) && (q !in heavy ==> q.remain == old(q.remain))
  {
    hide Good, Exa.ValidWith, Stuck, Exa.Open;
    bytes := 0;
    for i := 0 to |heavy|
      invariant exa.Valid() && exa.pools == old(exa.pools) && exa.all == old(exa.all) && exa.Repr == old(exa.Repr)
      invariant exa.light == old(exa.light) && exa.heavy == old(exa.heavy)
      invariant from.remain == old(from.remain) + bytes && (bytes > 0 ==> heavy != [])
      invariant forall k {:trigger heavy[k]} :: 0 <= k < i ==> Stuck(heavy[k], from)
      invariant forall a, b {:trigger Stuck(a, b)} ::
                  a in exa.pools && b in exa.pools && a != from && b !in heavy && old(Stuck(a, b)) ==> Stuck(a, b)
      invariant forall q {:trigger q.Empty()} :: q in exa.pools && q != from && q.Empty() ==> old(q.Empty())
      invariant old(exa.Open(memory)) ==> exa.Open(memory)
      invariant forall q {:trigger q.remain} :: q in exa.pools && q != from ==>
                  q.remain <= old(q.remain) && (q !in heavy ==> q.remain == old(q.remain))
    {
      var to := heavy[i];
      assert to in heavy;
      if to.Full() {
        FullIsStuck(to, from);
      } else {
        label Move:
        var n := MoveIn(exa, to, from, memory);
        bytes := bytes + n;
        forall k | 0 <= k < i ensures Stuck(heavy[k], from) {
          assert heavy[k] in heavy && old@Move(Stuck(heavy[k], from));
        }
      }
    }
  }

  lemma FullIsStuck(to: Pool, from: Pool)
    requires to.Full()
    ensures Stuck(to, from)
  {
  }

  /** A light pool, destroyed if that empties it */
  method DrainPool(exa: Exa, from: Pool, heavy: seq<Pool>, memory: bool) returns (bytes: nat, gone: bool)
    requires exa.Valid() && from in exa.pools && from !in heavy
    requires forall p {:trigger p in heavy} :: p in heavy ==> p in exa.pools
    modifies exa`pools, exa.Repr
    ensures exa.Valid() && exa.all == old(exa.all) && exa.Repr == old(exa.Repr)
    ensures exa.light == old(exa.light) && exa.heavy == old(exa.heavy)
    ensures Set(exa.pools) == if gone then old(Set(exa.pools)) - {from} else old(Set(exa.pools))
    ensures |exa.pools| == old(|exa.pools|) - if gone then 1 else 0
    ensures bytes > 0 ==> heavy != []
    ensures forall h {:trigger Stuck(h, from)} :: h in heavy ==> Stuck(h, from)
    ensures forall a, b {:trigger Stuck(a, b)} ::
              a in old(exa.pools) && b in old(exa.pools) && a != from && b !in heavy && old(Stuck(a, b)) ==> Stuck(a, b)
    ensures old(exa.NoneEmpty()) ==> exa.NoneEmpty() && (gone ==> bytes > 0)
    ensures old(exa.Open(memory)) ==> exa.Open(memory)
    ensures from.remain == old(from.remain) + bytes && forall q {:trigger q.remain} ::
              q in old(exa.pools) && q != from ==>
                q.remain <= old(q.remain) && (q !in heavy ==> q.remain == old(q.remain))
  {
    hide Good, Exa.ValidWith, Stuck;
    bytes := DrainOne(exa, from, heavy, memory);
    gone := from.Empty();
    ghost var pools := Set(exa.pools);
    if gone {
      var i :| 0 <= i < |exa.pools| && exa.pools[i] == from;
      Destroy(exa, i, {});
    }
    if old(exa.NoneEmpty()) {
      forall q | q in exa.pools ensures !q.Empty() {
        assert q in Set(exa.pools) && q in pools;
      }
    }
    if old(exa.Open(memory)) {
      forall q | q in exa.pools ensures OpenPool(q, memory) {
        assert q in Set(exa.pools) && q in pools;
      }
    }
  }

  lemma NoneDistinct<A>()
    ensures Distinct<A>([])
  {
  }

  /** The light pools before and after the one at `l` */
  lemma AroundLight(pools: set<Pool>, light: seq<Pool>, left: seq<Pool>, l: nat)
    requires Distinct(light) && Distinct(left) && l < |light| && Set(light) <= pools && Set(left) <= Set(light[..l])
    ensures Set(light[..l + 1]) == Set(light[..l]) + {light[l]} && light[l] !in left && Distinct(left + [light[l]])
    ensures forall b {:trigger b in light[l..]} :: b in light[l..] ==> b in pools - (Set(light[..l]) - Set(left))
    ensures forall b {:trigger b in left} :: b in left ==> b in pools - (Set(light[..l]) - Set(left)) && b in light
    ensures forall b {:trigger b in light[l + 1..]} :: b in light[l + 1..] ==> b in light[l..] && b != light[l]
  {
    assert light[..l + 1] == light[..l] + [light[l]] && light[l] !in light[..l];
    assert light[l..] == [light[l]] + light[l + 1..];
    forall b | b in left ensures b in light[..l] && b in light {
      assert b in Set(left);
    }
    forall b | b in light[l..] ensures b in Set(light) && b !in light[..l] {
      var k :| l <= k < |light| && light[k] == b;
    }
  }

  /** The light pools that are empty afterwards are destroyed, the others are `left`, with nothing that
      fits a heavy pool. */
  method Drain(exa: Exa, light: seq<Pool>, heavy: seq<Pool>, memory: bool) returns (transferred: nat, left: seq<Pool>)
    requires exa.Valid() && Distinct(light)
    requires forall p {:trigger p in light} :: p in light ==> p in exa.pools && p !in heavy
    requires forall p {:trigger p in heavy} :: p in heavy ==> p in exa.pools
    modifies exa`pools, exa`light, exa`heavy, exa`all, exa`Repr, exa.Repr
    ensures exa.Valid() && exa.all == old(exa.all) && exa.Repr == old(exa.Repr)
    ensures exa.light == old(exa.light) && exa.heavy == old(exa.heavy)
    ensures Set(exa.pools) == old(Set(exa.pools)) - (Set(light) - Set(left)) && |left| <= |light|
    ensures Distinct(left) && Set(left) <= Set(light) && Set(left) <= Set(exa.pools)
    ensures |exa.pools| + |light| == old(|exa.pools|) + |left|
    ensures transferred > 0 ==> light != [] && heavy != []
    ensures forall h, f {:trigger Stuck(h, f)} :: h in heavy && f in left ==> Stuck(h, f)
    ensures forall a, b {:trigger Stuck(a, b)} ::
              a in old(exa.pools) && a !in light && b in light && b in left && old(Stuck(a, b)) ==> Stuck(a, b)
    ensures old(exa.NoneEmpty()) ==> exa.NoneEmpty() && (transferred == 0 ==> |left| == |light|)
    ensures old(exa.Open(memory)) ==> exa.Open(memory)
    ensures forall q {:trigger q.remain} :: q in exa.pools && q in old(exa.pools) ==>
              if q !in light then q.remain <= old(q.remain)
              else if transferred == 0 then q.remain == old(q.remain) else q.remain >= old(q.remain)
  {
    hide Good, Exa.ValidWith, Stuck, Exa.NoneEmpty, Exa.Open, Lists.Distinct;
    transferred, left := 0, [];
    ghost var pools := Set(exa.pools);
    assert Set(light[..0]) == {} == Set(left) && Distinct(left) by {
      NoneDistinct<Pool>();
    }
    for l := 0 to |light|
      invariant exa.Valid() && exa.all == old(exa.all) && exa.Repr == old(exa.Repr)
      invariant exa.light == old(exa.light) && exa.heavy == old(exa.heavy)
      invariant Set(exa.pools) == pools - (Set(light[..l]) - Set(left))
      invariant |left| <= l
      invariant Distinct(left) && Set(left) <= Set(light[..l]) && |exa.pools| + l == old(|exa.pools|) + |left|
      invariant transferred > 0 ==> l > 0 && heavy != []
      invariant forall h, f {:trigger Stuck(h, f)} :: h in heavy && f in left ==> Stuck(h, f)
      invariant forall a, b {:trigger Stuck(a, b)} ::
                  && a in old(exa.pools) && a !in light && b in light && (b in left || b in light[l..])
                  && old(Stuck(a, b)) ==>
                    Stuck(a, b)
      invariant old(exa.NoneEmpty()) ==> exa.NoneEmpty() && (transferred == 0 ==> |left| == l)
      invariant old(exa.Open(memory)) ==> exa.Open(memory)
      invariant forall q {:trigger q.remain} :: q in exa.pools && q in old(exa.pools) ==>
                  if q !in light then q.remain <= old(q.remain)
              else if transferred == 0 then q.remain == old(q.remain) else q.remain >= old(q.remain)
    {
      var from := light[l];
      AroundLight(pools, light, left, l);
      assert from in light && from in light[l..] && from in Set(exa.pools);
      forall p | p in heavy ensures p in Set(exa.pools) {
        assert p !in light && p in pools;
      }
      ghost var left0 := left;
      label Turn:
      var bytes, gone := DrainPool(exa, from, heavy, memory);
      transferred := transferred + bytes;
      forall q | q in exa.pools ensures q in old@Turn(exa.pools) {
        assert q in Set(exa.pools) && q in old@Turn(Set(exa.pools));
      }
      if !gone {
        left := left + [from];
      }
      forall a, b | && a in old(exa.pools) && a !in light && b in light && (b in left || b in light[l + 1..])
                    && old(Stuck(a, b))
        ensures Stuck(a, b)
      {
        assert a in pools && (b in left0 || b in light[l..]);
        assert a in old@Turn(Set(exa.pools)) && b in old@Turn(Set(exa.pools)) && old@Turn(Stuck(a, b));
      }
    }
    assert light[..|light|] == light;
  }

  // ---- Shrinking ----------------------------------------------------------------------------------

  /** A new pool with the bitmap of another one, and the bytes it needs, has room for everything in it. */
  lemma RoomInNew(to: Pool, from: Pool)
    requires to.Valid() && from.Valid() && to.Empty() && !to.fragmented && !to.bitmapFull
    requires to.remain > 0 && to.remain >= from.poolSize - from.remain && |to.used| == |from.used|
    ensures RoomForAll(to, from)
  {
    UsedSpace(to);
    UsedSpace(from);
  }

  /** `tegra_exa_shrink_pool`: the pool at `i` is replaced by one with less than a page to spare, which
      has received every entry. */
  method ShrinkPool(exa: Exa, i: nat, newPools: seq<Pool>, k: Kernel) returns (err: bool, made: seq<Pool>)
    requires exa.ValidWith(Set(newPools)) && i < |exa.pools|
    modifies exa`pools, exa`light, exa`heavy, exa`all, exa`Repr, exa.Repr
    ensures exa.ValidWith(Set(newPools + made)) && exa.all == old(exa.all) && fresh(exa.Repr - old(exa.Repr))
    ensures exa.light == old(exa.light) && exa.heavy == old(exa.heavy) && fresh(made) && (err ==> made == [])
    ensures err ==> !k.buffers || old(exa.pools[i].Empty())
    ensures if made == [] then exa.pools == old(exa.pools) else
              |made| == 1 && exa.pools == Drop(old(exa.pools), i) && 0 <= made[0].remain < 4096 && !made[0].Empty()
    ensures !err && made == [] ==> exa.pools[i].remain < 4096
    ensures Set(exa.pools) == old(Set(exa.pools)) - if made == [] then {} else {old(exa.pools[i])}
    ensures forall q {:trigger q in exa.pools} :: q in exa.pools && q in old(exa.pools) ==>
              LookOf(q) == old(LookOf(q)) && q.live == old(q.live)
    ensures forall q {:trigger q in newPools} :: q in newPools ==> LookOf(q) == old(LookOf(q))
    ensures forall q {:trigger q in made} :: q in made ==> OpenPool(q, k.memory)
  {
    hide Good, RoomForAll, Pool.Valid;
    var pool := exa.pools[i];
    made := [];
    assert newPools + [] == newPools;
    if pool.remain < PAGE_SIZE {
      return false, [];
    }
    Footprint(pool, Set(exa.pools) + Set(newPools), exa.all, exa.Repr);
    UsedSpace(pool);
    var p := AddExtra(exa, AlignPage(pool.poolSize - pool.remain), |pool.words|, k.buffers, Set(newPools));
    if p == null {
      return true, [];
    }
    ghost var extra := Set(newPools) + {p};
    Footprint(p, Set(exa.pools) + extra, exa.all, exa.Repr);
    Footprint(pool, Set(exa.pools) + extra, exa.all, exa.Repr);
    RoomInNew(p, pool);
    assert p.remain >= PAGE_SIZE;
    ghost var others := Set(exa.pools) + Set(newPools) - {pool};
    MoveOut(exa, i, p, k.memory, Set(newPools) + {p});
    forall q | q in others
      ensures LookOf(q) == old(LookOf(q)) && q.live == old(q.live)
    {
      assert q in Set(exa.pools) + extra && q != p && q.remain == q.remain;
    }
    Destroy(exa, i, Set(newPools) + {p});
    err, made := false, [p];
    assert Set(newPools + made) == extra;
    forall q | q in exa.pools || q in newPools ensures q in others {
      assert q in Set(exa.pools) + Set(newPools) && pool !in Set(newPools);
    }
  }

  /** The new pools go to the head of the list. */
  method PrependAll(exa: Exa, newPools: seq<Pool>)
    requires exa.ValidWith(Set(newPools)) && Distinct(newPools)
    modifies exa`pools
    ensures exa.Valid() && Set(exa.pools) == old(Set(exa.pools)) + Set(newPools)
    ensures |exa.pools| == old(|exa.pools|) + |newPools|
  {
    hide Good;
    for n := 0 to |newPools|
      invariant Set(exa.pools) == old(Set(exa.pools)) + Set(newPools[..n]) && |exa.pools| == old(|exa.pools|) + n
      invariant exa.ValidWith(Set(newPools[n..]))
    {
      var p := newPools[n];
      assert newPools[n..] == [p] + newPools[n + 1..] && newPools[..n + 1] == newPools[..n] + [p];
      assert Set(newPools[n..]) == {p} + Set(newPools[n + 1..]) && p !in newPools[n + 1..];
      assert Set([p] + exa.pools) + Set(newPools[n + 1..]) == Set(exa.pools) + Set(newPools[n..]);
      exa.pools := [p] + exa.pools;
    }
    assert newPools[..|newPools|] == newPools && Set(newPools[|newPools|..]) == {};
  }

  /** A light pool only loses its bit. */
  method Unlight(exa: Exa, i: nat, ghost newPools: seq<Pool>)
    requires exa.ValidWith(Set(newPools)) && i < |exa.pools|
    modifies exa`light
    ensures exa.ValidWith(Set(newPools)) && exa.light == old(exa.light) - {exa.pools[i]}
    ensures forall k {:trigger exa.pools[k]} :: 0 <= k < |exa.pools| && k != i ==> exa.pools[k] != exa.pools[i]
  {
    hide Good;
    exa.light := exa.light - {exa.pools[i]};
  }

  /** A pool that is not light, on the way through the list */
  method ShrinkStep(exa: Exa, i: nat, newPools: seq<Pool>, k: Kernel, ghost keep: set<Pool>)
    returns (err: bool, i': nat, newPools': seq<Pool>)
    requires exa.ValidWith(Set(newPools)) && i < |exa.pools| && Distinct(newPools)
    requires keep <= Set(exa.pools) && exa.pools[i] !in keep
    requires forall p {:trigger p in newPools} :: p in newPools ==>
               p.remain < PAGE_SIZE && !p.Empty() && OpenPool(p, k.memory)
    modifies exa`pools, exa`light, exa`heavy, exa`all, exa`Repr, exa.Repr
    ensures exa.ValidWith(Set(newPools')) && exa.all == old(exa.all) && fresh(exa.Repr - old(exa.Repr))
    ensures exa.light == old(exa.light) && Distinct(newPools')
    ensures |exa.pools| + |newPools'| == old(|exa.pools|) + |newPools|
    ensures err ==> !k.buffers || old(exa.pools[i].Empty())
    ensures keep <= Set(exa.pools) <= old(Set(exa.pools)) && i <= i' <= |exa.pools|
    ensures exa.pools == if |newPools'| > |newPools| then Drop(old(exa.pools), i) else old(exa.pools)
    ensures forall n {:trigger exa.pools[n]} :: 0 <= n < i ==>
              exa.pools[n] == old(exa.pools[n]) && exa.pools[n].remain == old(exa.pools[n].remain)
    ensures if i' > i then i' == i + 1 && exa.pools == old(exa.pools) && exa.pools[i].remain < PAGE_SIZE
            else err || |newPools'| > |newPools|
    ensures forall p {:trigger p in newPools'} :: p in newPools' ==>
              p.remain < PAGE_SIZE && !p.Empty() && OpenPool(p, k.memory) && (p in newPools || fresh(p))
    ensures forall q {:trigger q in exa.pools} :: q in exa.pools ==>
              && q in old(exa.pools)
              && LookOf(q) == old(LookOf(q)) && q.live == old(q.live)
  {
    hide Good;
    var made;
    err, made := ShrinkPool(exa, i, newPools, k);
    i' := if made == [] && !err then i + 1 else i;
    forall q | q in exa.pools ensures q in old(exa.pools) {
      assert q in Set(exa.pools) && q in old(Set(exa.pools));
    }
    forall n | 0 <= n < i
      ensures exa.pools[n] == old(exa.pools[n]) && exa.pools[n] in exa.pools && exa.pools[n] in old(exa.pools)
    {
    }
    newPools' := newPools + made;
  }

  /** The way through the list; the new pools are collected beside it. */
  method ShrinkList(exa: Exa, k: Kernel) returns (err: bool, newPools: seq<Pool>)
    requires exa.Valid()
    modifies exa`pools, exa`light, exa`heavy, exa`all, exa`Repr, exa.Repr
    ensures exa.ValidWith(Set(newPools)) && Distinct(newPools) && exa.all == old(exa.all)
    ensures fresh(exa.Repr - old(exa.Repr))
    ensures !err ==> forall p {:trigger p in exa.pools} :: p in exa.pools ==>
              (p in old(exa.light) && p in old(exa.pools)) || p.remain < PAGE_SIZE
    ensures err ==> !k.buffers || !old(exa.NoneEmpty())
    ensures |exa.pools| + |newPools| == old(|exa.pools|)
    ensures old(Set(exa.pools) * exa.light) <= Set(exa.pools) <= old(Set(exa.pools))
    ensures forall p {:trigger p in newPools} :: p in newPools ==>
              p.remain < PAGE_SIZE && !p.Empty() && OpenPool(p, k.memory) && fresh(p)
    ensures forall p {:trigger p in exa.pools} :: p in exa.pools ==>
              p in old(exa.pools) && LookOf(p) == old(LookOf(p)) && p.live == old(p.live)
  {
    hide Good, Exa.ValidWith, Lists.Distinct;
    var i := 0;
    err, newPools := false, [];
    ghost var pools, keep := Set(exa.pools), Set(exa.pools) * exa.light;
    assert Set([]) == {};
    NoneDistinct<Pool>();
    while i < |exa.pools| && !err
      invariant 0 <= i <= |exa.pools| && exa.ValidWith(Set(newPools)) && exa.all == old(exa.all)
      invariant fresh(exa.Repr - old(exa.Repr)) && exa.light <= old(exa.light) && Distinct(newPools)
      invariant keep <= Set(exa.pools) <= pools && |exa.pools| + |newPools| == old(|exa.pools|)
      invariant forall n {:trigger exa.pools[n]} ::
                  0 <= n < i ==> exa.pools[n] in keep || exa.pools[n].remain < PAGE_SIZE
      invariant forall n {:trigger exa.pools[n]} ::
                  i <= n < |exa.pools| && exa.pools[n] in keep ==> exa.pools[n] in exa.light
      invariant forall p {:trigger p in newPools} :: p in newPools ==>
                  p.remain < PAGE_SIZE && !p.Empty() && OpenPool(p, k.memory) && fresh(p)
      invariant forall p {:trigger p in exa.pools} :: p in exa.pools ==>
                  p in old(exa.pools) && LookOf(p) == old(LookOf(p)) && p.live == old(p.live)
      invariant err ==> !k.buffers || !old(exa.NoneEmpty())
      decreases |exa.pools| - i, !err
    {
      ghost var p := exa.pools[i];
      assert p in exa.pools && p in Set(exa.pools) && (p in exa.light ==> p in keep);
      if exa.pools[i] in exa.light {
        Unlight(exa, i, newPools);
        i := i + 1;
      } else {
        err, i, newPools := ShrinkStep(exa, i, newPools, k, keep);
      }
    }
  }

  /** Cutting off the unused space: unless a buffer is refused, no pool but the light ones keeps a page
      that it does not need. */
  method ShrinkPools(exa: Exa, k: Kernel) returns (err: bool)
    requires exa.Valid()
    modifies exa`pools, exa`light, exa`heavy, exa`all, exa`Repr, exa.Repr
    ensures exa.Valid() && exa.all == old(exa.all) && fresh(exa.Repr - old(exa.Repr))
    ensures !err ==> forall p {:trigger p in exa.pools} :: p in exa.pools ==>
              (p in old(exa.light) && p in old(exa.pools)) || p.remain < 4096
    ensures (old(exa.NoneEmpty()) ==> exa.NoneEmpty())
    ensures err ==> !k.buffers || !old(exa.NoneEmpty())
    ensures old(exa.Open(k.memory)) ==> exa.Open(k.memory)
    ensures |exa.pools| == old(|exa.pools|)
    ensures forall p {:trigger p in exa.pools} :: p in exa.pools ==> p in old(exa.pools) || fresh(p)
    ensures old(Set(exa.pools) * exa.light) <= Set(exa.pools)
    ensures forall p {:trigger LookOf(p)} :: p in exa.pools && p in old(exa.pools) ==> LookOf(p) == old(LookOf(p))
    ensures forall p, f {:trigger Stuck(p, f)} ::
              && p in exa.pools && p in old(exa.pools) && f in old(exa.pools) && f in old(exa.light)
              && old(Stuck(p, f)) ==>
                Stuck(p, f)
  {
    hide Good, Exa.ValidWith, Lists.Distinct;
    ghost var keep := Set(exa.pools) * exa.light;
    var newPools;
    err, newPools := ShrinkList(exa, k);
    ghost var before := exa.pools;
    PrependAll(exa, newPools);
    forall p | p in exa.pools ensures p in newPools || p in before {
      assert p in Set(exa.pools) && p in Set(before) + Set(newPools);
    }
    forall p, f | && p in exa.pools && p in old(exa.pools) && f in old(exa.pools) && f in old(exa.light)
                  && old(Stuck(p, f))
      ensures Stuck(p, f)
    {
      assert f in keep && f in Set(before) && f in before && p in before;
    }
  }

  // ---- Compaction ---------------------------------------------------------------------------------

  /** The pools that have not been in a heavy list since the lists were last built anew. */
  ghost function Fresh(exa: Exa): (r: set<Pool>)
    reads exa
  {
    Set(exa.pools) - exa.heavy
  }

  lemma FewerFresh(before: set<Pool>, after: set<Pool>, p: Pool)
    requires after <= before && p in before && p !in after
    ensures |after| < |before|
  {
    SubsetSize(after, before - {p});
  }

  /** The light list: pools that carry the `light` bit */
  ghost predicate Lights(exa: Exa, light: seq<Pool>)
    reads exa`pools, exa`light
  {
    && Distinct(light) && |light| <= MAX_LIGHT && Set(light) <= Set(exa.pools) && Set(light) <= exa.light
    && forall p {:trigger p in exa.light} :: p in exa.light && p in exa.pools ==> p in light
  }

  lemma HeavyShrinks(pools: set<Pool>, heavy0: set<Pool>, heavy1: set<Pool>, pools': set<Pool>, l: seq<Pool>)
    requires forall p {:trigger p in heavy1} :: p in pools ==> (p in heavy1 <==> p in heavy0 || p in l)
    requires forall p {:trigger p in l} :: p in l ==> p in pools && p !in heavy0
    requires pools' <= pools
    ensures |pools' - heavy1| <= |pools - heavy0|
    ensures l != [] ==> |pools' - heavy1| < |pools - heavy0|
  {
    SubsetSize(pools' - heavy1, pools - heavy0);
    if l != [] {
      assert l[0] in l;
      FewerFresh(pools - heavy0, pools' - heavy1, l[0]);
    }
  }

  lemma Unlike(exa: Exa, light: seq<Pool>, heavy: seq<Pool>)
    requires Lights(exa, light) && forall p {:trigger p in heavy} :: p in heavy ==> p !in exa.light
    ensures Distinct(light) && forall p {:trigger p in light} :: p in light ==> p in exa.pools && p !in heavy
  {
    forall p | p in light ensures p in exa.pools && p !in heavy {
      assert p in Set(light);
    }
  }

  /** What is left of the light list are the light pools that are left. */
  lemma LightsKept(pools: set<Pool>, pools': set<Pool>, bits: set<Pool>, light: seq<Pool>, left: seq<Pool>)
    requires forall p {:trigger p in bits} :: p in bits && p in pools ==> p in light
    requires pools' == pools - (Set(light) - Set(left))
    ensures forall p {:trigger p in bits} :: p in bits && p in pools' ==> p in left
  {
  }

  /** Nothing that is left in the light pools fits a heavy pool, and no heavy pool is light. */
  ghost predicate Settled(exa: Exa, light: seq<Pool>)
    reads exa`pools, exa`light, exa`heavy, exa.pools, light
  {
    && (forall h {:trigger h in exa.heavy} :: h in exa.heavy && h in exa.pools ==> h !in exa.light)
    && forall h, f {:trigger Stuck(h, f)} :: h in exa.pools && h in exa.heavy && f in light ==> Stuck(h, f)
  }

  /** Nothing that is left in the light pools fits any other pool. */
  ghost predicate Drained(exa: Exa, light: seq<Pool>)
    reads exa`pools, exa`light, exa.pools, light
  {
    forall h, f {:trigger Stuck(h, f)} :: h in exa.pools && h !in exa.light && f in light ==> Stuck(h, f)
  }

  /** A pool that cannot be heavy takes nothing. */
  lemma TakesNothing(exa: Exa, h: Pool, f: Pool)
    requires exa.Valid() && f in exa.pools && (h.Full() || h.remain < ALIGN)
    ensures Stuck(h, f)
  {
    hide Good, Pool.Valid, Ok;
    Footprint(f, Set(exa.pools) + {}, exa.all, exa.Repr);
    ValidOk(f);
    forall o | o in f.live ensures |f.live[o]| >= ALIGN {
      SizeAtLeast(f, o);
    }
  }

  /** What takes nothing from the light pools, once the heavy list is made. */
  lemma BeforeDrain(exa: Exa, light: seq<Pool>, heavy0: set<Pool>, heavy: seq<Pool>, h: Pool, f: Pool)
    requires exa.Valid() && Lights(exa, light) && h in exa.pools && f in light && h !in exa.light && h !in heavy
    requires h in heavy0 ==> Stuck(h, f)
    requires |heavy| < MAX_HEAVY ==> forall p {:trigger p in heavy} ::
               p in exa.pools && Eligible(p, exa.light, heavy0) ==> p in heavy
    ensures h in heavy0 || |heavy| < MAX_HEAVY ==> Stuck(h, f)
  {
    hide Exa.ValidWith, Stuck;
    assert f in Set(light) && f in Set(exa.pools);
    if h !in heavy0 && |heavy| < MAX_HEAVY {
      TakesNothing(exa, h, f);
    }
  }

  /** Light pools into heavy ones: what is left of them fits no heavy pool, and nothing of it gets a
      place in the `closed` pools that took nothing before. */
  method DrainSettled(exa: Exa, light: seq<Pool>, heavy: seq<Pool>, memory: bool, ghost closed: set<Pool>)
    returns (transferred: nat, left: seq<Pool>)
    requires exa.Valid() && Lights(exa, light) && closed <= Set(exa.pools) - exa.light
    requires forall p {:trigger p in heavy} :: p in heavy ==> p in exa.pools && p !in exa.light
    requires forall h, f {:trigger Stuck(h, f)} :: h in closed && f in light ==> Stuck(h, f)
    modifies exa`pools, exa`light, exa`heavy, exa`all, exa`Repr, exa.Repr
    ensures exa.Valid() && exa.all == old(exa.all) && exa.Repr == old(exa.Repr) && Lights(exa, left)
    ensures exa.light == old(exa.light) && exa.heavy == old(exa.heavy)
    ensures Set(exa.pools) <= old(Set(exa.pools)) && (old(exa.NoneEmpty()) ==> exa.NoneEmpty())
    ensures |exa.pools| + |light| == old(|exa.pools|) + |left| && Set(left) <= Set(light)
    ensures transferred > 0 ==> light != [] && heavy != []
    ensures forall h, f {:trigger Stuck(h, f)} ::
              (h in closed || h in heavy) && h in exa.pools && f in left ==> Stuck(h, f)
    ensures old(exa.NoneEmpty()) && transferred == 0 ==> |left| == |light|
    ensures old(exa.Open(memory)) ==> exa.Open(memory)
    ensures forall q {:trigger q.remain} :: q in exa.pools && q in old(exa.pools) ==>
              if q !in light then q.remain <= old(q.remain)
              else if transferred == 0 then q.remain == old(q.remain) else q.remain >= old(q.remain)
    ensures Set(exa.pools) == old(Set(exa.pools)) - (Set(light) - Set(left))
  {
    hide Good, Exa.ValidWith, Lists.Distinct, Stuck, Exa.NoneEmpty, Exa.Open;
    Unlike(exa, light, heavy);
    ghost var pools := Set(exa.pools);
    transferred, left := Drain(exa, light, heavy, memory);
    LightsStay(exa, pools, light, left);
    forall h, f | (h in closed || h in heavy) && h in exa.pools && f in left ensures Stuck(h, f) {
      assert f in Set(left) && f in Set(light);
      if h !in heavy { assert h !in light && old(Stuck(h, f)); }
    }
  }

  /** A short heavy list leaves few pools in all. */
  lemma CountPools(exa: Exa, light: seq<Pool>, heavy: seq<Pool>)
    requires exa.Valid() && Lights(exa, light) && Distinct(heavy)
    requires forall p {:trigger p in heavy} :: p in heavy ==> p in exa.pools && p !in exa.light
    ensures |light| + |heavy| <= |exa.pools|
  {
    hide Good;
    DistinctSize(light);
    DistinctSize(heavy);
    DistinctSize(exa.pools);
    assert Set(light) !! Set(heavy);
    assert |Set(light) + Set(heavy)| == |Set(light)| + |Set(heavy)|;
    SubsetSize(Set(light) + Set(heavy), Set(exa.pools));
  }

  /** The pools that take nothing from the light ones, once the heavy list is made */
  ghost function Closed(exa: Exa, heavy0: set<Pool>, heavy: seq<Pool>): (r: set<Pool>)
    reads exa`pools, exa`light
  {
    set h | h in exa.pools && h !in exa.light && h !in heavy && (h in heavy0 || |heavy| < MAX_HEAVY)
  }

  /** Light pools into a new list of heavy ones. A list that is not full has left nothing out. */
  method Level(exa: Exa, light: seq<Pool>, memory: bool) returns (transferred: nat, left: seq<Pool>)
    requires exa.Valid() && Lights(exa, light) && Settled(exa, light)
    modifies exa`pools, exa`light, exa`heavy, exa`all, exa`Repr, exa.Repr
    ensures exa.Valid() && exa.all == old(exa.all) && exa.Repr == old(exa.Repr) && Lights(exa, left)
    ensures (old(exa.NoneEmpty()) ==> exa.NoneEmpty())
    ensures |exa.pools| + |light| == old(|exa.pools|) + |left| && Set(left) <= Set(light)
    ensures |Fresh(exa)| <= old(|Fresh(exa)|)
    ensures transferred > 0 ==> light != [] && |Fresh(exa)| < old(|Fresh(exa)|)
    ensures Settled(exa, left) && (|exa.pools| < |left| + MAX_HEAVY ==> Drained(exa, left))
    ensures exa.light == old(exa.light) && (old(exa.NoneEmpty()) && transferred == 0 ==> |left| == |light|)
    ensures old(exa.Open(memory)) ==> exa.Open(memory)
    ensures Tilted(old(Rests(exa.pools)), Rests(exa.pools), light, left, transferred)
  {
    hide Good, Exa.ValidWith, Lists.Distinct, Stuck, Exa.NoneEmpty, Exa.Open, Lights, Eligible, ListOf, Picked,
         AllEligible;
    ghost var pools, heavy0, lightBits := Set(exa.pools), exa.heavy, exa.light;
    var heavy := HeavyPools(exa);
    ghost var closed := Closed(exa, heavy0, heavy);
    CountPools(exa, light, heavy);
    forall h, f | h in closed && f in light ensures Stuck(h, f) {
      BeforeDrain(exa, light, heavy0, heavy, h, f);
    }
    LightsAre(exa, light);
    ghost var rests := Rests(exa.pools);
    transferred, left := DrainSettled(exa, light, heavy, memory, closed);
    assert Tilted(rests, Rests(exa.pools), light, left, transferred) by {
      assert Rests(exa.pools).Keys == Set(exa.pools) && rests.Keys == pools;
      assert forall p {:trigger p in left} :: p in left ==> p in Set(left) && p in Set(light);
    }
    HeavyShrinks(pools, heavy0, exa.heavy, Set(exa.pools), heavy);
    forall h, f | h in exa.pools && h !in exa.light && f in left && (h in exa.heavy || |heavy| < MAX_HEAVY)
      ensures Stuck(h, f)
    {
      assert h in Set(exa.pools) && h in pools;
    }
    forall h | h in exa.heavy && h in exa.pools ensures h !in exa.light {
      assert h in Set(exa.pools) && h in pools;
    }
  }

  lemma LightsStay(exa: Exa, pools: set<Pool>, light: seq<Pool>, left: seq<Pool>)
    requires Distinct(left) && |left| <= MAX_LIGHT && Set(left) <= Set(exa.pools)
    requires Set(left) <= Set(light) <= exa.light
    requires forall p {:trigger p in exa.light} :: p in exa.light && p in pools ==> p in light
    requires Set(exa.pools) == pools - (Set(light) - Set(left))
    ensures Lights(exa, left)
  {
    LightsKept(pools, Set(exa.pools), exa.light, light, left);
    forall p | p in exa.light && p in exa.pools ensures p in left {
      assert p in Set(exa.pools);
    }
  }

  /** The pools that are at least half empty */
  ghost function Halves(exa: Exa): (r: set<Pool>)
    reads exa`pools, exa.pools
    ensures r <= Set(exa.pools)
  {
    HalvesIn(Rests(exa.pools))
  }

  ghost function Rests(pools: seq<Pool>): (r: map<Pool, int>)
    reads pools
  {
    map p | p in pools :: p.remain
  }

  ghost function HalvesIn(rests: map<Pool, int>): (r: set<Pool>) {
    set p | p in rests && rests[p] >= p.poolSize / 2
  }

  /** Draining makes light pools lighter and all others heavier. */
  ghost predicate Tilted(r: map<Pool, int>, r': map<Pool, int>, light: seq<Pool>, left: seq<Pool>, transferred: nat) {
    && r'.Keys == r.Keys - (Set(light) - Set(left)) && Set(left) <= Set(light) && Set(left) <= r.Keys
    && forall q {:trigger r'[q]} :: q in r' ==>
         if q !in light then r'[q] <= r[q] else if transferred == 0 then r'[q] == r[q] else r'[q] >= r[q]
  }

  lemma HalvesShrink(r: map<Pool, int>, r': map<Pool, int>, light: seq<Pool>, left: seq<Pool>, transferred: nat)
    requires Tilted(r, r', light, left, transferred) && Set(light) <= HalvesIn(r)
    ensures HalvesIn(r') <= HalvesIn(r) && Set(left) <= HalvesIn(r') && |HalvesIn(r')| <= |HalvesIn(r)|
    ensures HalvesIn(r) == Set(light) ==> HalvesIn(r') == Set(left) == HalvesIn(r) * r'.Keys
    ensures r'.Keys <= r.Keys && r.Keys - r'.Keys <= HalvesIn(r)
  {
    forall p | p in HalvesIn(r') ensures p in HalvesIn(r) && (HalvesIn(r) == Set(light) ==> p in Set(left)) {
      if p in light { assert p in Set(light); }
    }
    SubsetSize(HalvesIn(r'), HalvesIn(r));
  }

  /** The light list is made of pools that are at least half empty; with `few` of them it has them all. */
  ghost predicate Chosen(exa: Exa, light: seq<Pool>, few: bool)
    reads exa`pools, exa.pools
  {
    Set(light) <= Halves(exa) && (few ==> Halves(exa) == Set(light))
  }

  method NewLights(exa: Exa) returns (light: seq<Pool>)
    requires exa.Valid()
    modifies exa`light, exa`heavy
    ensures exa.Valid() && Lights(exa, light) && Settled(exa, light)
    ensures Chosen(exa, light, |Halves(exa)| <= MAX_LIGHT) && (light == [] ==> Halves(exa) == {})
  {
    hide Good, Exa.ValidWith, Stuck, ListOf, Picked;
    light := LightPools(exa);
    forall p | p in light ensures p in Set(exa.pools) && p in exa.light {
    }
    DistinctSize(light);
    assert Set(light) <= Halves(exa);
    if |light| < MAX_LIGHT {
      assert Halves(exa) <= Set(light);
    } else if |Halves(exa)| <= MAX_LIGHT {
      SameSize(Set(light), Halves(exa));
    }
  }

  lemma DistinctSize(l: seq<Pool>)
    requires Distinct(l)
    ensures |Set(l)| == |l|
  {
    if l != [] {
      DropSet(l, 0);
      DistinctSize(l[1..]);
      assert Drop(l, 0) == l[1..] && l[0] in Set(l);
    }
  }

  /** From the pools, with those that are at least half empty, to what draining has left of them: only half-empty
      pools are gone; with `few` of them exactly those that are left are still half empty. */
  ghost predicate Thinned(pools: set<Pool>, halves: set<Pool>, pools': set<Pool>, halves': set<Pool>, few: bool) {
    && halves' <= halves && |halves'| <= |halves| && (few ==> halves' == halves * pools')
    && pools' <= pools && pools - pools' <= halves
  }

  lemma ThinnedNone(pools: set<Pool>, halves: set<Pool>, few: bool)
    requires halves <= pools
    ensures Thinned(pools, halves, pools, halves, few)
  {
    assert halves == halves * pools;
  }

  lemma ThinnedTwice(p0: set<Pool>, h0: set<Pool>, p1: set<Pool>, h1: set<Pool>, p2: set<Pool>, h2: set<Pool>,
                     few: bool)
    requires Thinned(p0, h0, p1, h1, few) && Thinned(p1, h1, p2, h2, few)
    ensures Thinned(p0, h0, p2, h2, few)
  {
  }

  /** Draining keeps the light list made of pools that are at least half empty. */
  lemma StillChosen(exa: Exa, r: map<Pool, int>, light: seq<Pool>, left: seq<Pool>, transferred: nat, few: bool)
    requires Tilted(r, Rests(exa.pools), light, left, transferred)
    requires Set(light) <= HalvesIn(r) && (few ==> HalvesIn(r) == Set(light))
    ensures Chosen(exa, left, few) && Thinned(r.Keys, HalvesIn(r), Set(exa.pools), Halves(exa), few)
    ensures left == [] && few ==> Halves(exa) == {}
  {
    HalvesShrink(r, Rests(exa.pools), light, left, transferred);
    assert Rests(exa.pools).Keys == Set(exa.pools);
  }

  lemma FewerLeft(light: seq<Pool>, left: seq<Pool>)
    requires Distinct(light) && Distinct(left) && Set(left) <= Set(light)
    ensures |left| <= |light|
  {
    DistinctSize(light);
    DistinctSize(left);
    SubsetSize(Set(left), Set(light));
  }

  /** One round, with a new light list once the old one is used up. Going on means that a pool was
      destroyed, or that a pool is heavy now that was not. */
  method Round(exa: Exa, light: seq<Pool>, memory: bool, ghost few: bool, ghost tidy: bool)
    returns (light': seq<Pool>, again: bool)
    requires exa.Valid() && Lights(exa, light) && Settled(exa, light)
    requires Chosen(exa, light, few) && (few ==> |Halves(exa)| <= MAX_LIGHT)
    requires tidy ==> exa.NoneEmpty() && (light == [] ==> Halves(exa) == {})
    modifies exa`pools, exa`light, exa`heavy, exa`all, exa`Repr, exa.Repr
    ensures exa.Valid() && exa.all == old(exa.all) && exa.Repr == old(exa.Repr) && Lights(exa, light')
    ensures (old(exa.NoneEmpty()) ==> exa.NoneEmpty())
    ensures |exa.pools| <= old(|exa.pools|)
    ensures |exa.pools| == old(|exa.pools|) ==> |Fresh(exa)| <= old(|Fresh(exa)|)
    ensures again ==> |exa.pools| < old(|exa.pools|) || |Fresh(exa)| < old(|Fresh(exa)|)
    ensures Settled(exa, light') && (!again && |exa.pools| < |light'| + MAX_HEAVY ==> Drained(exa, light'))
    ensures Chosen(exa, light', few)
    ensures Thinned(old(Set(exa.pools)), old(Halves(exa)), Set(exa.pools), Halves(exa), few)
    ensures tidy ==> exa.NoneEmpty() && (light' == [] ==> Halves(exa) == {})
    ensures old(exa.Open(memory)) ==> exa.Open(memory)
    ensures !again ==> Tilted(old(Rests(exa.pools)), Rests(exa.pools), light, light', 0)
  {
    hide Good, Exa.ValidWith, Lists.Distinct, Settled, Drained, Exa.NoneEmpty, Exa.Open, HalvesIn, Tilted;
    var transferred;
    ghost var rests := Rests(exa.pools);
    assert rests.Keys == Set(exa.pools);
    transferred, light' := Level(exa, light, memory);
    StillChosen(exa, rests, light, light', transferred, few);
    FewerLeft(light, light');
    again := transferred > 0;
    if again && light' == [] {
      light' := NewLights(exa);
    }
  }

  /** The rounds end, because each one either destroys a pool or marks a pool heavy for good. Then nothing
      that is left in the light pools fits a pool of any heavy list; nor any other pool, unless the
      sixteen places of the list were too few. */
  method DrainAll(exa: Exa, memory: bool) returns (light: seq<Pool>)
    requires exa.Valid()
    modifies exa`pools, exa`light, exa`heavy, exa`all, exa`Repr, exa.Repr
    ensures exa.Valid() && exa.all == old(exa.all) && exa.Repr == old(exa.Repr)
    ensures (old(exa.NoneEmpty()) ==> exa.NoneEmpty())
    ensures Lights(exa, light) && Settled(exa, light)
    ensures |exa.pools| < |light| + 16 ==> Drained(exa, light)
    ensures Chosen(exa, light, old(|Halves(exa)|) <= 5)
    ensures Thinned(old(Set(exa.pools)), old(Halves(exa)), Set(exa.pools), Halves(exa),
                    old(|Halves(exa)|) <= 5)
    ensures old(exa.NoneEmpty()) && light == [] ==> Halves(exa) == {}
    ensures old(exa.Open(memory)) ==> exa.Open(memory)
  {
    hide Good, Exa.ValidWith, Lights, Settled, Drained, Exa.NoneEmpty, Exa.Open, Chosen, HalvesIn, Rests;
    ghost var few, tidy := |Halves(exa)| <= MAX_LIGHT, exa.NoneEmpty();
    ghost var pools, halves := Set(exa.pools), Halves(exa);
    ThinnedNone(pools, halves, few);
    light := NewLights(exa);
    var again := true;
    while again
      invariant exa.Valid() && exa.all == old(exa.all) && exa.Repr == old(exa.Repr)
      invariant (old(exa.NoneEmpty()) ==> exa.NoneEmpty())
      invariant Lights(exa, light) && Settled(exa, light)
      invariant !again && |exa.pools| < |light| + MAX_HEAVY ==> Drained(exa, light)
      invariant Chosen(exa, light, few) && Thinned(pools, halves, Set(exa.pools), Halves(exa), few)
      invariant tidy ==> exa.NoneEmpty() && (light == [] ==> Halves(exa) == {})
      invariant old(exa.Open(memory)) ==> exa.Open(memory)
      decreases |exa.pools|, |Fresh(exa)|, again
    {
      ghost var now, nowHalves := Set(exa.pools), Halves(exa);
      light, again := Round(exa, light, memory, few, tidy);
      ThinnedTwice(pools, halves, now, nowHalves, Set(exa.pools), Halves(exa), few);
    }
  }

  lemma CountHalves(pools: set<Pool>, pools': set<Pool>, halves: set<Pool>, light: set<Pool>)
    requires pools' <= pools && pools - pools' <= halves <= pools && light == halves * pools'
    ensures |pools'| + |halves| == |pools| + |light|
  {
    assert pools - pools' == halves - light;
    assert pools == pools' + (pools - pools') && halves == light + (halves - light);
  }

  /** Light pools are drained, and the others shrink. */
  method DrainAndShrink(exa: Exa, k: Kernel) returns (err: bool, ghost light: seq<Pool>)
    requires exa.Valid()
    modifies exa`pools, exa`light, exa`heavy, exa`all, exa`Repr, exa.Repr
    ensures exa.Valid() && exa.all == old(exa.all) && fresh(exa.Repr - old(exa.Repr))
    ensures |light| <= MAX_LIGHT
    ensures !err ==> forall p {:trigger p in exa.pools} :: p in exa.pools ==> p in light || p.remain < PAGE_SIZE
    ensures old(exa.NoneEmpty()) ==> exa.NoneEmpty()
    ensures err ==> !k.buffers || !old(exa.NoneEmpty())
    ensures old(exa.Open(k.memory)) ==> exa.Open(k.memory)
    ensures forall p {:trigger p in exa.pools} :: p in exa.pools ==> p in old(exa.pools) || fresh(p)
    ensures forall p {:trigger p in light} :: p in light ==> p in exa.pools && p.remain >= p.poolSize / 2
    ensures old(|Halves(exa)|) <= MAX_LIGHT ==>
              && Set(light) == old(Halves(exa)) * Set(exa.pools)
              && |exa.pools| + old(|Halves(exa)|) == old(|exa.pools|) + |light|
    ensures |exa.pools| < |light| + MAX_HEAVY ==>
              forall p, f {:trigger Stuck(p, f)} ::
                p in exa.pools && p in old(exa.pools) && p !in light && f in light ==> Stuck(p, f)
  {
    hide Good, Exa.ValidWith, Lights, Settled, Drained, Exa.NoneEmpty, Exa.Open, Stuck, Chosen, HalvesIn,
         Lists.Distinct;
    ghost var pools := Set(exa.pools);
    PoolsSize(exa);
    light := DrainAll(exa, k.memory);
    LightsAre(exa, light);
    PoolsSize(exa);
    DrainedHalves(exa, light, pools, old(Halves(exa)));
    ghost var drained := Set(exa.pools);
    err := ShrinkPools(exa, k);
    forall p | p in exa.pools ensures p in old(exa.pools) || fresh(p) {
      assert p in drained ==> p in pools;
    }
    forall p | p in light ensures p in exa.pools && p.remain >= p.poolSize / 2 {
      assert p in Set(exa.pools) && LookOf(p) == LookOf(p);
    }
  }

  lemma PoolsSize(exa: Exa)
    requires exa.Valid()
    ensures |Set(exa.pools)| == |exa.pools|
  {
    hide Good;
    DistinctSize(exa.pools);
  }

  /** What draining has left of the pools that are at least half empty */
  lemma DrainedHalves(exa: Exa, light: seq<Pool>, pools: set<Pool>, halves: set<Pool>)
    requires Lights(exa, light) && Chosen(exa, light, |halves| <= MAX_LIGHT) && halves <= pools
    requires Thinned(pools, halves, Set(exa.pools), Halves(exa), |halves| <= MAX_LIGHT)
    ensures Set(light) <= Set(exa.pools)
    ensures forall p {:trigger p.remain} :: p in light ==> p.remain >= p.poolSize / 2
    ensures |halves| <= MAX_LIGHT ==>
              Set(light) == halves * Set(exa.pools) && |Set(exa.pools)| + |halves| == |pools| + |light|
  {
    DistinctSize(light);
    if |halves| <= MAX_LIGHT { CountHalves(pools, Set(exa.pools), halves, Set(light)); }
    assert forall p {:trigger p in light} :: p in light ==> p in Set(light) && p in Halves(exa);
  }

  /** Of the pools that could be merged the first is gone, and all are if they hold no more than 1 MiB. */
  ghost predicate AwayWith(pools: seq<Pool>, was: seq<Pool>, l: seq<Load>) {
    && |was| == |l|
    && forall i: nat {:trigger was[i]} ::
      i < |l| && l[i].merges && (Content(l, |l|) <= 1024 * 1024 || FirstAt(l, i)) ==> was[i] !in pools
  }

  lemma {:induction false} UnmergedOnly(was: seq<Pool>, l: seq<Load>, k: nat, i: nat)
    requires Distinct(was) && |was| == |l| && k <= |l| && i < |l| && l[i].merges
    ensures was[i] !in Unmerged(was, l, k)
  {
    if k > 0 { UnmergedOnly(was, l, k - 1, i); }
  }

  lemma MergedAway(pools: seq<Pool>, merged: Pool, was: seq<Pool>, l: seq<Load>)
    requires Distinct(was) && |was| == |l| && FirstGone(pools, was, l, |was|) && merged !in was
    requires Content(l, |l|) <= 1024 * 1024 ==> pools == Unmerged(was, l, |l|) + [merged]
    ensures AwayWith(pools, was, l)
  {
    forall i: nat | i < |l| && l[i].merges && Content(l, |l|) <= 1024 * 1024 ensures was[i] !in pools {
      UnmergedOnly(was, l, |l|, i);
      assert was[i] in was;
    }
  }

  lemma StillAway(pools: seq<Pool>, pools': seq<Pool>, was: seq<Pool>, l: seq<Load>)
    requires AwayWith(pools, was, l)
    requires forall p {:trigger p in pools'} :: p in pools' ==> p in pools || p !in was
    ensures AwayWith(pools', was, l)
  {
    forall i: nat | i < |l| && was[i] in pools' ensures was[i] in pools {
      assert was[i] in was;
    }
  }

  /** `tegra_exa_compact_pools_slow`: no allocation is lost on the way. Unless a buffer was refused, no
      pool but the last light ones, at most five, keeps a page that it does not need. Where merging is not
      worth it and no more than five pools are half empty, only these can have been emptied and destroyed:
      the light ones at the end are those of them that are left, and the number of the others is as before. Where
      it is worth it, and the buffer is to be had, the first pool that can be merged is gone; and all of them
      are if they fit into 1 MiB. */
  method CompactPoolsSlow(exa: Exa, k: Kernel, end: int) returns (err: bool, ghost light: seq<Pool>)
    requires exa.Valid()
    modifies exa`pools, exa`light, exa`heavy, exa`all, exa`Repr, exa`slowTime, exa.Repr
    ensures exa.Valid() && exa.all == old(exa.all) && fresh(exa.Repr - old(exa.Repr))
    ensures |light| <= 5
    ensures !err ==> forall p {:trigger p in exa.pools} :: p in exa.pools ==> p in light || p.remain < 4096
    ensures old(exa.NoneEmpty()) ==> exa.NoneEmpty()
    ensures err ==> !k.buffers || !old(exa.NoneEmpty())
    ensures old(exa.Open(k.memory)) ==> exa.Open(k.memory)
    ensures exa.slowTime == end
    ensures forall p {:trigger p in light} :: p in light ==> p in exa.pools && p.remain >= p.poolSize / 2
    ensures forall n {:trigger Examined(old(Loads(exa.pools)), n)} ::
              && Examined(old(Loads(exa.pools)), n) && Slack(old(Loads(exa.pools)), n) < 64 * 1024
              && old(|Halves(exa)|) <= 5 ==>
                && Set(light) == old(Halves(exa)) * Set(exa.pools)
                && |exa.pools| + old(|Halves(exa)|) == old(|exa.pools|) + |light|
    ensures forall n {:trigger Examined(old(Loads(exa.pools)), n)} ::
              Examined(old(Loads(exa.pools)), n) && Slack(old(Loads(exa.pools)), n) >= 64 * 1024 && k.buffers ==>
                AwayWith(exa.pools, old(exa.pools), old(Loads(exa.pools)))
    ensures |exa.pools| < |light| + 16 ==>
              forall p, f {:trigger Stuck(p, f)} ::
                p in exa.pools && p in old(exa.pools) && p !in light && f in light ==> Stuck(p, f)
  {
    hide Good, Exa.ValidWith, Stuck, Exa.NoneEmpty, Exa.Open, Content, Slack, HalvesIn, Unmerged, Examined, Blocked,
         AwayWith, FirstGone;
    ghost var was, l := exa.pools, Loads(exa.pools);
    DistinctPools(exa, {});
    var merged := MergePools(exa, k);
    ghost var pools := exa.pools;
    if merged != null { MergedAway(pools, merged, was, l); }
    err, light := DrainAndShrink(exa, k);
    if merged != null { StillAway(pools, exa.pools, was, l); }
    Outside(exa);
    exa.slowTime := end;
  }

  lemma Outside(exa: Exa)
    requires exa.Valid()
    ensures exa !in exa.Repr
  {
    hide Good;
  }

  lemma LightsAre(exa: Exa, light: seq<Pool>)
    requires Lights(exa, light)
    ensures |light| <= MAX_LIGHT
    ensures forall p {:trigger p in exa.light} :: p in exa.light && p in exa.pools ==> p in light
    ensures forall p {:trigger p in light} :: p in light ==> p in exa.light && p in exa.pools
    ensures Drained(exa, light) ==>
              forall h, f {:trigger Stuck(h, f)} :: h in exa.pools && h !in light && f in light ==> Stuck(h, f)
  {
    forall p | p in light ensures p in exa.light && p in exa.pools {
      assert p in Set(light);
    }
  }

  // ---- Allocating from the list -------------------------------------------------------------------

  /** No pool knows a handle that is not allocated. */
  lemma Unknown(s: set<Pool>, all: Live, r: set<object?>, o: Owner?)
    requires s <= r && Good(s, all, r) && o !in all
    ensures forall p {:trigger p.slot} :: p in s ==> o !in p.slot
  {
    hide Pool.Valid;
    forall p | p in s ensures o !in p.slot {
      assert PoolOk(p);
      OkLiveKeys(p);
      assert o !in LivesOf(s)[p];
    }
  }

  lemma HandleLeads(p: Pool, o: Owner?)
    requires p.Valid() && o in p.slot
    ensures o != null && o.pool == p && o in p.live
  {
    HandlePool(p, o);
  }

  /** Handles of one pool keep leading where they led. */
  ghost predicate Stay(a: map<Owner?, int>, b: map<Owner?, int>) {
    forall o {:trigger o in a} :: o in a ==> o in b && b[o] == a[o]
  }

  lemma AllocStays(p: Pool, t: Table<Owner?>, slot: map<Owner?, nat>, offsets: map<Owner?, int>, owner: Owner?,
                   m1: seq<Entry<Owner?>>, e: nat, x: Entry<Owner?>, m2: seq<Entry<Owner?>>)
    requires p.Valid() && Owned(t, slot) && e < |t.used| + |m1|
    requires offsets == map o | o in slot && slot[o] < |t.entries| :: t.entries[slot[o]].base
    requires p.T() == Grown(t, m1) ||
               (FirstFitAt(Grown(t, m1), p.poolSize, e, x.base, x.size) && p.T() == AfterAlloc(t, m1, e, x, m2))
    ensures Stay(offsets, p.Offsets())
  {
    hide PoolLayout.FirstFitAt, PoolContents.Owned, PoolLayout.Layout, PoolContents.Holds;
    forall o | o in offsets ensures o in p.Offsets() && p.Offsets()[o] == offsets[o] {
      OthersStay(t, p.poolSize, slot, p.T(), p.slot, o, m1, e, x, m2);
    }
  }

  lemma OwnedNow(p: Pool)
    requires p.Valid()
    ensures Owned(p.T(), p.slot) && |p.used| == |p.entries| > 0
  {
  }

  /** A pool of `n` bytes has a gap with a slot for the request, or is packed and has space for it. */
  ghost predicate Serves(v: Look, n: int, size: int) {
    && |v.table.used| == |v.table.entries| && size <= v.remain && !v.bitmapFull
    && (!v.fragmented || !NoSlot(v.table, n, size))
  }

  /** A pool has turned a request down: no gap is large enough; or without memory for the bitmap none that
      has a slot. When it could be defragmented, only for lack of space or of slots. */
  ghost predicate Turned(v: Look, v': Look, n: int, size: int, defrag: bool, memory: bool) {
    && |v.table.used| == |v.table.entries| && |v'.table.used| == |v'.table.entries| && v'.remain == v.remain
    && !Serves(v, n, size)
    && (size <= v.remain && v'.bitmapFull ==>
          !memory && (v.bitmapFull || (NoSlot(v.table, n, size) && LastUsed(v.table))))
    && if defrag then size > v.remain || v'.bitmapFull
       else (memory ==> NoFit(v.table, n, size)) && (v'.table == v.table || !LastUsed(v'.table))
  }

  lemma TurnedDown(v: Look, v': Look, n: int, size: int, defrag: bool, memory: bool, m1: seq<Entry<Owner?>>)
    requires |v.table.used| == |v.table.entries| && |v'.table.used| == |v'.table.entries| && v'.remain == v.remain
    requires !Serves(v, n, size)
    requires size <= v.remain && v'.bitmapFull ==>
               !memory && (v.bitmapFull || (NoSlot(v.table, n, size) && LastUsed(v.table)))
    requires defrag ==> size > v.remain || v'.bitmapFull
    requires !defrag ==> v'.table == Grown(v.table, m1) && (memory ==> NoFit(v'.table, n, size))
    ensures Turned(v, v', n, size, defrag, memory)
  {
    hide PoolLayout.NoSlot, PoolLayout.NoFit;
    if !defrag {
      if memory { GrownFit(v.table, n, size, m1); }
      assert m1 == [] ==> Grown(v.table, m1) == v.table;
    }
  }

  lemma TurnedMeans(v: Look, v': Look, n: int, size: int, memory: bool)
    requires Turned(v, v', n, size, false, memory)
    ensures v'.remain == v.remain && !Serves(v, n, size)
    ensures memory ==> |v.table.used| == |v.table.entries| && NoFit(v.table, n, size)
  {
  }

  lemma TurnedForSpace(v: Look, v': Look, n: int, size: int)
    requires Turned(v, v', n, size, true, true)
    ensures v.remain < size
  {
  }

  lemma TurnedTwice(v: Look, v1: Look, v': Look, n: int, size: int, memory: bool)
    requires Turned(v, v1, n, size, false, memory)
    ensures size > v.remain || v1.bitmapFull ==> Turned(v, v1, n, size, true, memory)
    ensures Turned(v1, v', n, size, true, memory) && !v1.bitmapFull ==> Turned(v, v', n, size, true, memory)
  {
    hide PoolLayout.NoSlot, PoolLayout.NoFit, PoolLayout.LastUsed;
  }

  method AllocOk(p: Pool, size: nat, owner: Owner, defrag: bool, memory: bool) returns (data: int)
    requires PoolOk(p) && owner !in p.slot && 0 < size && size % ALIGN == 0 && (defrag ==> p.Mapped())
    modifies p`words, p`used, p`entries, p`slot, p`live, p`remain, p`bitmapFull, p`fragmented, p.mem,
             p.slot.Keys, owner
    ensures PoolOk(p)
    ensures data < 0 ==>
              && p.remain == old(p.remain) && p.live == old(p.live) && p.slot.Keys == old(p.slot.Keys)
              && owner.pool == old(owner.pool) && owner.id == old(owner.id)
    ensures data >= 0 ==>
              && owner in p.live && |p.live[owner]| == size && p.live == old(p.live)[owner := p.live[owner]]
              && p.slot.Keys == old(p.slot.Keys) + {owner} && p.Placed(owner, data, size) && owner.pool == p
              && p.remain == old(p.remain) - size
    ensures old(Serves(LookOf(p), p.poolSize, size)) ==> data >= 0
    ensures data < 0 ==> Turned(old(LookOf(p)), LookOf(p), p.poolSize, size, defrag, memory)
    ensures Shut(p.bitmapFull, p.T(), old(p.bitmapFull), old(p.T()), memory)
    ensures !defrag ==> Stay(old(p.Offsets()), p.Offsets())
  {
    hide Pool.Valid, PoolLayout.FirstFitAt, PoolLayout.AfterAlloc, PoolLayout.NoFit, PoolLayout.Packed,
         PoolLayout.HasFree, Pool.Placed, PoolContents.Owned, Stay;
    ghost var t, slot, offsets, look, m1, m2 := p.T(), p.slot, p.Offsets(), LookOf(p), [], [];
    OkLiveKeys(p);
    OwnedNow(p);
    data, m1, m2 := Alloc(p, size, owner, defrag, memory);
    if !defrag {
      AllocStays(p, t, slot, offsets, owner, m1, if data >= 0 then p.slot[owner] else 0, Entry(data, size, owner), m2);
    }
    if data >= 0 {
      HandleLeads(p, owner);
      BytesInPlace(p);
    } else {
      OwnedNow(p);
      TurnedDown(look, LookOf(p), p.poolSize, size, defrag, memory, m1);
    }
  }

  lemma BytesInPlace(p: Pool)
    requires p.Valid()
    ensures |p.mem[..]| == p.poolSize
  {
  }

  /** `mem_pool_alloc` in one of the pools, as all of them see it. */
  method AllocIn(p: Pool, size: nat, owner: Owner, defrag: bool, memory: bool, ghost s: set<Pool>, ghost all: Live,
                 ghost r: set<object?>)
    returns (data: int)
    requires s <= r && p in s && Good(s, all, r) && owner !in all && 0 < size && size % ALIGN == 0
    requires defrag ==> p.Mapped()
    modifies p`words, p`used, p`entries, p`slot, p`live, p`remain, p`bitmapFull, p`fragmented, p.mem,
             p.slot.Keys, owner
    ensures data < 0 ==>
              Good(s, all, r) && p.remain == old(p.remain) && owner.pool == old(owner.pool) && owner.id == old(owner.id)
    ensures data >= 0 ==>
              && owner in p.live && |p.live[owner]| == size && Good(s, all[owner := p.live[owner]], r + {owner})
              && p.Placed(owner, data, size) && owner.pool == p && p.remain == old(p.remain) - size
    ensures old(Serves(LookOf(p), p.poolSize, size)) ==> data >= 0
    ensures data < 0 ==> Turned(old(LookOf(p)), LookOf(p), p.poolSize, size, defrag, memory)
    ensures Shut(p.bitmapFull, p.T(), old(p.bitmapFull), old(p.T()), memory)
    ensures !defrag ==> Stay(old(p.Offsets()), p.Offsets())
  {
    hide PoolOk, Tie, Pool.Placed, Stay, Pool.Offsets, Pool.Mapped, Serves, Turned, Shut;
    Unknown(s, all, r, owner);
    assert PoolOk(p);
    forall q | q in s && q != p
      ensures PoolOk(q) && q.mem != p.mem && q.slot.Keys !! p.slot.Keys && owner !in q.slot.Keys
    {
      assert Separate(q, p);
    }
    data := AllocOk(p, size, owner, defrag, memory);
    forall q | q in s && q != p
      ensures PoolOk(q) && q.slot == old(q.slot) && q.live == old(q.live) && owner !in q.slot
    {
    }
    forall x, y | x in s && y in s && x != y ensures Separate(x, y) {
      assert old(Separate(x, y)) && (x != p ==> old(Separate(x, p))) && (y != p ==> old(Separate(p, y)));
    }
    if data >= 0 {
      TiePut(all, old(LivesOf(s)), LivesOf(s), p, owner, p.live[owner]);
    } else {
      assert LivesOf(s) == old(LivesOf(s));
    }
  }

  /** The same, in a pool that is mapped for it when it is to be defragmented */
  method AllocMapped(p: Pool, size: nat, owner: Owner, defrag: bool, memory: bool, s: set<Pool>, ghost all: Live,
                     ghost r: set<object?>)
    returns (data: int)
    requires s <= r && p in s && Good(s, all, r) && owner !in all && 0 < size && size % ALIGN == 0
    modifies p, p.mem, p.slot.Keys, owner
    ensures data < 0 ==>
              Good(s, all, r) && p.remain == old(p.remain) && owner.pool == old(owner.pool) && owner.id == old(owner.id)
    ensures data >= 0 ==>
              && owner in p.live && |p.live[owner]| == size && Good(s, all[owner := p.live[owner]], r + {owner})
              && p.Placed(owner, data, size) && owner.pool == p && p.remain == old(p.remain) - size
    ensures old(Serves(LookOf(p), p.poolSize, size)) ==> data >= 0
    ensures data < 0 ==> Turned(old(LookOf(p)), LookOf(p), p.poolSize, size, defrag, memory)
    ensures Shut(p.bitmapFull, p.T(), old(p.bitmapFull), old(p.T()), memory)
    ensures !defrag ==> Stay(old(p.Offsets()), p.Offsets())
  {
    hide Good, Pool.Placed, Stay, Serves, Turned, Shut;
    if defrag {
      MapPool(p, s, all, r);
    }
    data := AllocIn(p, size, owner, defrag, memory, s, all, r);
    if defrag {
      UnmapPool(p, s, if data >= 0 then all[owner := p.live[owner]] else all, if data >= 0 then r + {owner} else r);
    }
  }

  /** `owner` has become the handle of `size` bytes in one of the pools, and nothing else has changed. */
  ghost predicate Gained(exa: Exa, owner: Owner, size: int, all: Live)
    reads exa, owner
  {
    && owner !in all && owner in exa.all && exa.all == all[owner := exa.all[owner]] && |exa.all[owner]| == size
    && owner.pool != null && owner.pool in exa.pools
  }

  method ToFront(exa: Exa, i: nat)
    requires exa.Valid() && i < |exa.pools|
    modifies exa`pools
    ensures exa.Valid() && exa.pools == [old(exa.pools[i])] + Drop(old(exa.pools), i)
    ensures Set(exa.pools) == old(Set(exa.pools))
  {
    hide Good;
    DropSet(exa.pools, i);
    assert Set([exa.pools[i]] + Drop(exa.pools, i)) == Set(exa.pools);
    exa.pools := [exa.pools[i]] + Drop(exa.pools, i);
  }

  type Places = map<Pool, map<Owner?, int>>

  /** Where the handles of the pools in the list lead */
  ghost function Where(exa: Exa): (r: Places)
    reads exa`pools, exa.pools
  {
    map p | p in exa.pools :: p.Offsets()
  }

  /** Every pool is still in the list, and every handle leads where it led. */
  ghost predicate Undisturbed(w: Places, w': Places) {
    forall p {:trigger w'[p]} {:trigger w[p]} :: p in w ==> p in w' && Stay(w[p], w'[p])
  }

  lemma NotDisturbed(w: Places)
    ensures Undisturbed(w, w)
  {
  }

  lemma StillUndisturbed(w0: Places, w1: Places, w2: Places)
    requires Undisturbed(w0, w1) && Undisturbed(w1, w2)
    ensures Undisturbed(w0, w2)
  {
    forall p | p in w0 ensures p in w2 && Stay(w0[p], w2[p]) {
      assert p in w1 && Stay(w0[p], w1[p]) && Stay(w1[p], w2[p]);
    }
  }

  /** `mem_pool_alloc` in the pool at `i`, which is mapped for it when it is to be defragmented. */
  method AllocAt(exa: Exa, i: nat, size: nat, owner: Owner, defrag: bool, memory: bool) returns (data: int)
    requires exa.Valid() && i < |exa.pools| && owner !in exa.all && 0 < size && size % ALIGN == 0
    modifies exa`all, exa`Repr, exa.Repr, owner
    ensures exa.Valid() && exa.pools == old(exa.pools) && exa.Repr <= old(exa.Repr) + {owner}
    ensures data < 0 ==> exa.all == old(exa.all) && exa.pools[i].remain == old(exa.pools[i].remain)
    ensures data >= 0 ==>
              && Gained(exa, owner, size, old(exa.all)) && owner.pool == exa.pools[i] && !owner.pool.Empty()
              && owner.pool.remain == old(exa.pools[i].remain) - size
    ensures var p := exa.pools[i];
            && (old(Serves(LookOf(p), p.poolSize, size)) ==> data >= 0)
            && (data < 0 ==> Turned(old(LookOf(p)), LookOf(p), p.poolSize, size, defrag, memory))
            && Shut(p.bitmapFull, p.T(), old(p.bitmapFull), old(p.T()), memory)
    ensures forall q {:trigger LookOf(q)} :: q in exa.pools && q != exa.pools[i] ==> LookOf(q) == old(LookOf(q))
    ensures forall q {:trigger q.Empty()} :: q in exa.pools && q.Empty() ==> old(q.Empty())
    ensures !defrag ==> forall q {:trigger q.Offsets()} :: q in exa.pools ==> Stay(old(q.Offsets()), q.Offsets())
  {
    hide Good, Pool.Placed, Stay, Pool.Valid, Pool.Offsets, Serves, Turned, Shut;
    var p := exa.pools[i];
    Footprint(p, Set(exa.pools) + {}, exa.all, exa.Repr);
    UsedSpace(p);
    data := AllocMapped(p, size, owner, defrag, memory, Set(exa.pools) + {}, exa.all, exa.Repr);
    if data >= 0 {
      exa.all, exa.Repr := exa.all[owner := p.live[owner]], exa.Repr + {owner};
    }
    if !defrag {
      forall q | q in exa.pools ensures Stay(old(q.Offsets()), q.Offsets()) {
        if q != p { StaySame(q.Offsets()); }
      }
    }
  }

  lemma StaySame(a: map<Owner?, int>)
    ensures Stay(a, a)
  {
  }

  /** `tegra_exa_pixmap_pool_alloc`, up to where the pool goes to the head of the list */
  method PoolTry(exa: Exa, i: nat, size: nat, owner: Owner, fast: bool, memory: bool) returns (data: int)
    requires exa.Valid() && i < |exa.pools| && owner !in exa.all && 0 < size && size % ALIGN == 0
    modifies exa`all, exa`Repr, exa.Repr, owner
    ensures exa.Valid() && exa.pools == old(exa.pools) && exa.Repr <= old(exa.Repr) + {owner}
    ensures data < 0 ==> exa.all == old(exa.all) && exa.pools[i].remain == old(exa.pools[i].remain)
    ensures data >= 0 ==>
              && Gained(exa, owner, size, old(exa.all)) && owner.pool == exa.pools[i] && !owner.pool.Empty()
              && owner.pool.remain == old(exa.pools[i].remain) - size
    ensures var p := exa.pools[i];
            && (old(Serves(LookOf(p), p.poolSize, size)) ==> data >= 0)
            && (data < 0 ==> Turned(old(LookOf(p)), LookOf(p), p.poolSize, size, !fast, memory))
    ensures forall q {:trigger LookOf(q)} :: q in exa.pools && q != exa.pools[i] ==> LookOf(q) == old(LookOf(q))
    ensures old(exa.Open(memory)) ==> exa.Open(memory)
    ensures forall q {:trigger q.Empty()} :: q in exa.pools && q.Empty() ==> old(q.Empty())
    ensures fast ==> forall q {:trigger q.Offsets()} :: q in exa.pools ==> Stay(old(q.Offsets()), q.Offsets())
  {
    hide Good, Exa.ValidWith, Stay, Pool.Offsets, Serves, Turned, PoolLayout.LastUsed;
    var p := exa.pools[i];
    ghost var look := LookOf(p);
    data := AllocAt(exa, i, size, owner, false, memory);
    if data < 0 {
      ghost var still := LookOf(p);
      TurnedTwice(look, still, still, p.poolSize, size, memory);
      if !fast && p.HasSpace(size) {
        data := AllocAt(exa, i, size, owner, true, memory);
        TurnedTwice(look, still, LookOf(p), p.poolSize, size, memory);
      }
    }
    if old(exa.Open(memory)) {
      forall q | q in exa.pools ensures OpenPool(q, memory) {
        assert q != p ==> LookOf(q) == old(LookOf(q));
      }
    }
  }

  /** `tegra_exa_pixmap_pool_alloc` */
  method PoolAlloc(exa: Exa, i: nat, size: nat, owner: Owner, fast: bool, memory: bool) returns (data: int)
    requires exa.Valid() && i < |exa.pools| && owner !in exa.all && 0 < size && size % ALIGN == 0
    modifies exa`all, exa`Repr, exa`pools, exa.Repr, owner
    ensures exa.Valid() && exa.Repr <= old(exa.Repr) + {owner}
    ensures data < 0 ==> exa.all == old(exa.all) && exa.pools == old(exa.pools)
    ensures forall q {:trigger q.Empty()} :: q in exa.pools && q.Empty() ==> q in old(exa.pools) && old(q.Empty())
    ensures fast ==> Undisturbed(old(Where(exa)), Where(exa))
    ensures data >= 0 ==>
              && Gained(exa, owner, size, old(exa.all)) && owner.pool == old(exa.pools[i]) && !owner.pool.Empty()
              && exa.pools == [old(exa.pools[i])] + Drop(old(exa.pools), i)
              && owner.pool.remain == old(exa.pools[i].remain) - size
    ensures var p := old(exa.pools[i]);
            && (old(Serves(LookOf(p), p.poolSize, size)) ==> data >= 0)
            && (data < 0 ==> Turned(old(LookOf(p)), LookOf(p), p.poolSize, size, !fast, memory))
    ensures forall q {:trigger LookOf(q)} ::
              q in old(exa.pools) && q != old(exa.pools[i]) ==> LookOf(q) == old(LookOf(q))
    ensures old(exa.Open(memory)) ==> exa.Open(memory)
    ensures old(exa.NoneEmpty()) ==> exa.NoneEmpty()
    ensures data < 0 ==> Remains(exa.pools) == old(Remains(exa.pools))
  {
    hide Good, Exa.ValidWith, Stay, Pool.Offsets, Serves, Turned, OpenPool;
    var p := exa.pools[i];
    ghost var pools := Set(exa.pools);
    data := PoolTry(exa, i, size, owner, fast, memory);
    if data < 0 {
      forall q | q in exa.pools ensures q.remain == old(q.remain) {
        assert q != p ==> LookOf(q) == old(LookOf(q));
      }
      assert Remains(exa.pools) == old(Remains(exa.pools));
    } else {
      ToFront(exa, i);
    }
    forall q | q in exa.pools ensures q in old(exa.pools) {
      assert q in Set(exa.pools) && q in pools;
    }
    if fast {
      forall q | q in old(Where(exa)) ensures q in Where(exa) && Stay(old(Where(exa))[q], Where(exa)[q]) {
        assert q in old(Set(exa.pools)) && q in Set(exa.pools);
      }
    }
  }

  /** `tegra_exa_compact_pools_fast`: it finds a pool with enough space in all, if there is one. The
      transfer that would follow is never reached, because the pool it would empty is marked light first. */
  method CompactPoolsFast(exa: Exa, size: int, end: int) returns (r: Pool?)
    requires exa.Valid()
    modifies exa`light, exa`fastTime
    ensures exa.Valid() && exa.light >= old(exa.light)
    ensures r != null ==> r in exa.pools && r.remain >= size
    ensures r == null ==> forall p {:trigger p in exa.pools} :: p in exa.pools ==> p.remain < size
    ensures exa.fastTime == if r == null then end else old(exa.fastTime)
  {
    hide Good;
    var from: Pool? := null;
    for pass := 0 to 3
      invariant exa.Valid() && exa.light >= old(exa.light) && exa.fastTime == old(exa.fastTime)
      invariant pass > 0 ==> forall p {:trigger p in exa.pools} :: p in exa.pools ==> p.remain < size
    {
      for n := 0 to |exa.pools|
        invariant forall k {:trigger exa.pools[k]} :: 0 <= k < n ==> exa.pools[k].remain < size
      {
        var p := exa.pools[n];
        if p.remain >= size {
          return p;
        }
        if p.remain >= ALIGN && p !in exa.light && (from == null || from.remain < p.remain) {
          from := p;
        }
      }
      if from != null {
        exa.light := exa.light + {from};
      }
    }
    exa.fastTime := end;
    r := null;
  }

  ghost function Remains(pools: seq<Pool>): (r: seq<int>)
    reads pools
    ensures |r| == |pools| && forall i {:trigger r[i]} :: 0 <= i < |pools| ==> r[i] == pools[i].remain
  {
    if pools == [] then [] else Remains(pools[..|pools| - 1]) + [pools[|pools| - 1].remain]
  }

  /** The space that the pools have left together */
  ghost function Spare(pools: seq<Pool>): (r: int)
    reads pools
  {
    Lists.Sum(Remains(pools))
  }

  /** `tegra_exa_pools_total_available_space` */
  method TotalSpace(exa: Exa) returns (spare: int)
    ensures spare == Spare(exa.pools)
  {
    spare := 0;
    ghost var l := Remains(exa.pools);
    for i := 0 to |exa.pools|
      invariant spare == Lists.Sum(l[..i])
    {
      assert l[..i + 1] == l[..i] + [l[i]];
      SumMore(l[..i], l[i]);
      spare := spare + exa.pools[i].remain;
    }
    assert l[..|exa.pools|] == l;
  }

  const LIMIT := POOL_SIZE * 10

  /** What the clock reads, in seconds: when slow compaction is considered and when it ends, the same for
      fast compaction, and for the slow compaction that follows a refused buffer. */
  datatype Clock = Clock(slow: int, slowEnd: int, fast: int, fastEnd: int, again: int, againEnd: int)

  /** `tegra_exa_slow_compaction_allowed` */
  method SlowAllowed(exa: Exa, blockcnt: nat, now: int, limit: nat) returns (ok: bool)
    requires exa.Valid()
    modifies exa`slowTime
    ensures ok <==> blockcnt == 0 && now - old(exa.slowTime) >= 15 && (limit > 0 ==> Spare(exa.pools) >= limit)
    ensures exa.Valid() && exa.slowTime == if ok then now else old(exa.slowTime)
  {
    hide Good;
    if blockcnt > 0 {
      return false;
    }
    ok := now - exa.slowTime >= 15;
    if limit > 0 {
      var spare := TotalSpace(exa);
      if spare < limit {
        ok := false;
      }
    }
    if ok {
      exa.slowTime := now;
    }
  }

  /** `tegra_exa_fast_compaction_allowed` */
  method FastAllowed(exa: Exa, blockcnt: nat, now: int, limit: nat) returns (ok: bool)
    ensures ok <==> blockcnt == 0 && now - exa.fastTime >= 3 && (limit > 0 ==> Spare(exa.pools) >= limit)
  {
    if blockcnt > 0 {
      return false;
    }
    ok := now - exa.fastTime >= 3;
    if limit > 0 {
      var spare := TotalSpace(exa);
      if spare < limit {
        ok := false;
      }
    }
  }

  /** Slow compaction is due: nothing waits for the places of pool entries, the last one was 15 seconds ago,
      and the pools have 960 KiB to spare. */
  ghost predicate SlowDue(exa: Exa, blockcnt: nat, clock: Clock)
    reads exa`pools, exa`slowTime, exa.pools
  {
    exa.pools != [] && blockcnt == 0 && clock.slow - exa.slowTime >= 15 && Spare(exa.pools) >= 960 * 1024
  }

  /** Fast compaction is due: the last one that found nothing was three seconds ago, and the pools have as
      much to spare as is asked for. */
  ghost predicate FastDue(pools: seq<Pool>, last: int, size: nat, blockcnt: nat, clock: Clock)
    reads pools
  {
    blockcnt == 0 && clock.fast - last >= 3 && (size > 0 ==> Spare(pools) >= size)
  }

  /** No pool has so much space. */
  ghost predicate NoneHas(pools: seq<Pool>, size: int)
    reads pools
  {
    NoneOf(Remains(pools), size)
  }

  lemma NoneHasIt(pools: seq<Pool>, size: int)
    ensures NoneHas(pools, size) <==> forall p {:trigger p in pools} :: p in pools ==> p.remain < size
  {
    if NoneHas(pools, size) {
      forall p | p in pools ensures p.remain < size {
        var i :| 0 <= i < |pools| && pools[i] == p;
        assert Remains(pools)[i] < size;
      }
    }
    assert forall i {:trigger pools[i]} :: 0 <= i < |pools| ==> pools[i] in pools;
  }

  ghost predicate NoneOf(l: seq<int>, size: int) {
    forall i {:trigger l[i]} :: 0 <= i < |l| ==> l[i] < size
  }

  /** `tegra_exa_compact_pools`: a pool with enough space, once a compaction is allowed and if there is
      one. Nothing at all happens while the batch of 3D jobs is waiting. */
  method CompactPools(exa: Exa, size: nat, blockcnt: nat, clock: Clock, k: Kernel)
    returns (r: Pool?, ghost light: seq<Pool>)
    requires exa.Valid()
    modifies exa, exa.Repr
    ensures exa.Valid() && exa.all == old(exa.all) && fresh(exa.Repr - old(exa.Repr))
    ensures old(exa.NoneEmpty()) ==> exa.NoneEmpty()
    ensures old(exa.Open(k.memory)) ==> exa.Open(k.memory)
    ensures r != null ==> r in exa.pools && (r.remain >= size || r.remain >= 640 * 1024)
    ensures var slow := old(SlowDue(exa, blockcnt, clock));
            && (!slow ==> exa.pools == old(exa.pools) && exa.Repr == old(exa.Repr) && Where(exa) == old(Where(exa)))
            && (!slow ==> Remains(exa.pools) == old(Remains(exa.pools)))
            && (slow && k.buffers && old(exa.NoneEmpty()) ==>
                  && |light| <= 5
                  && forall p {:trigger p in exa.pools} :: p in exa.pools ==> p in light || p.remain < 4096)
    ensures var slow := old(SlowDue(exa, blockcnt, clock));
            var fast := old(exa.pools) != [] && FastDue(exa.pools, old(exa.fastTime), size, blockcnt, clock);
            && (slow || fast ==> (r == null <==> NoneHas(exa.pools, if fast then size else 640 * 1024)))
            && (!slow && !fast ==> r == null)
            && exa.slowTime == (if slow then clock.slowEnd else old(exa.slowTime))
            && exa.fastTime == (if (slow || fast) && r == null then clock.fastEnd else old(exa.fastTime))
  {
    hide Good, Exa.ValidWith, Exa.NoneEmpty, Exa.Open, Lists.Sum, Remains, NoneHas, Where;
    Outside(exa);
    r, light := null, [];
    if exa.pools == [] {
      return;
    }
    var slow := SlowAllowed(exa, blockcnt, clock.slow, LIMIT * 3 / 2);
    if slow {
      var err;
      err, light := CompactPoolsSlow(exa, k, clock.slowEnd);
    }
    var fast := FastAllowed(exa, blockcnt, clock.fast, size);
    if fast {
      r := CompactPoolsFast(exa, size, clock.fastEnd);
    } else if slow {
      r := CompactPoolsFast(exa, LIMIT, clock.fastEnd);
    }
    NoneHasIt(exa.pools, if fast then size else LIMIT);
  }

  datatype Outcome = Allocated | TooLarge | NoBuffer

  /** The pools of the list in turn, without moving anything: the first one that takes the request serves it.
      If none does, then none has a gap for it. */
  method TryAll(exa: Exa, size: nat, owner: Owner, memory: bool) returns (data: int)
    requires exa.Valid() && owner !in exa.all && 0 < size && size % ALIGN == 0
    modifies exa`pools, exa`all, exa`Repr, exa.Repr, owner
    ensures exa.Valid() && exa.Repr <= old(exa.Repr) + {owner}
    ensures if data < 0 then exa.all == old(exa.all) && exa.pools == old(exa.pools) else
              && Gained(exa, owner, size, old(exa.all)) && owner.pool in old(exa.pools)
              && Set(exa.pools) == old(Set(exa.pools))
    ensures old(exa.NoneEmpty()) ==> exa.NoneEmpty()
    ensures old(exa.Open(memory)) ==> exa.Open(memory)
    ensures Undisturbed(old(Where(exa)), Where(exa))
    ensures data < 0 ==> Remains(exa.pools) == old(Remains(exa.pools))
    ensures data < 0 ==> forall q {:trigger LookOf(q)} :: q in exa.pools ==>
              Turned(old(LookOf(q)), LookOf(q), q.poolSize, size, false, memory)
  {
    hide Good, Exa.ValidWith, Gained, Undisturbed, Where, Exa.Open, Exa.NoneEmpty, Turned, Serves, Remains;
    data := -1;
    NotDisturbed(Where(exa));
    for i := 0 to |exa.pools|
      invariant old(exa.NoneEmpty()) ==> exa.NoneEmpty()
      invariant old(exa.Open(memory)) ==> exa.Open(memory)
      invariant Undisturbed(old(Where(exa)), Where(exa))
      invariant exa.Valid() && exa.Repr <= old(exa.Repr) + {owner} && exa.all == old(exa.all)
      invariant exa.pools == old(exa.pools) && Remains(exa.pools) == old(Remains(exa.pools))
      invariant forall n {:trigger exa.pools[n]} :: 0 <= n < |exa.pools| ==>
                  var q := exa.pools[n];
                  if n < i then Turned(old(LookOf(q)), LookOf(q), q.poolSize, size, false, memory)
                  else LookOf(q) == old(LookOf(q))
    {
      ghost var w := Where(exa);
      DistinctPools(exa, {});
      data := PoolAlloc(exa, i, size, owner, true, memory);
      StillUndisturbed(old(Where(exa)), w, Where(exa));
      if data >= 0 {
        DropSet(old(exa.pools), i);
        return;
      }
    }
    data := -1;
  }

  lemma DropHead(p: Pool, pools: seq<Pool>)
    ensures Drop([p] + pools, 0) == pools
  {
  }

  lemma NewServes(exa: Exa, p: Pool, size: nat)
    requires exa.Valid() && p in exa.pools && !p.fragmented && !p.bitmapFull && size <= p.remain
    ensures Serves(LookOf(p), p.poolSize, size)
  {
    hide Good, Pool.Valid;
    Footprint(p, Set(exa.pools) + {}, exa.all, exa.Repr);
    ValidOk(p);
  }

  /** A new pool at the head of the list, of the size rounded up to 64 KiB, unless no buffer can be had */
  method NewFront(exa: Exa, size: nat, k: Kernel) returns (p: Pool?)
    requires exa.Valid() && 0 < size <= POOL_SIZE_MAX && size % ALIGN == 0
    modifies exa`pools, exa`Repr
    ensures exa.Valid() && fresh(exa.Repr - old(exa.Repr)) && (k.buffers ==> p != null)
    ensures exa.pools == if p == null then old(exa.pools) else [p] + old(exa.pools)
    ensures p != null ==>
              && fresh(p) && Serves(LookOf(p), p.poolSize, size) && OpenPool(p, k.memory)
              && p.poolSize % (64 * 1024) == 0 && size <= p.poolSize < size + 64 * 1024 && p.remain == p.poolSize
  {
    hide Good, Exa.ValidWith;
    p := AddExtra(exa, AlignPool(size), 1, k.buffers, {});
    if p != null {
      assert {} + {p} == {p};
      PrependOne(exa, p);
      NewServes(exa, p, size);
    }
  }

  /** An allocation from a pool made for it cannot fail: all that can go wrong is that there is no buffer
      for the pool. The pool goes to the head of the list, and has the size rounded up to 64 KiB. */
  method AllocFromNew(exa: Exa, size: nat, owner: Owner, k: Kernel) returns (ok: bool)
    requires exa.Valid() && owner !in exa.all && 0 < size <= POOL_SIZE_MAX && size % ALIGN == 0
    modifies exa`pools, exa`all, exa`Repr, exa.Repr, owner
    ensures exa.Valid() && fresh(exa.Repr - old(exa.Repr) - {owner})
    ensures k.buffers ==> ok
    ensures if ok then Gained(exa, owner, size, old(exa.all)) else exa.all == old(exa.all)
    ensures exa.pools == if ok then [owner.pool] + old(exa.pools) else old(exa.pools)
    ensures ok ==> fresh(owner.pool) && MadeFor(owner.pool, size)
    ensures Remains(old(exa.pools)) == old(Remains(exa.pools))
    ensures old(exa.NoneEmpty()) ==> exa.NoneEmpty()
    ensures old(exa.Open(k.memory)) ==> exa.Open(k.memory)
    ensures Undisturbed(old(Where(exa)), Where(exa))
  {
    hide Good, Exa.ValidWith, Gained, Undisturbed, Stay, Pool.Offsets, Turned, Serves, OpenPool, Remains, Lists.Drop;
    NotDisturbed(Where(exa));
    ghost var pools := exa.pools;
    var p := NewFront(exa, size, k);
    if p == null {
      return false;
    }
    OneMore(old(Where(exa)), Where(exa));
    DropHead(p, pools);
    ghost var w := Where(exa);
    var data := PoolAlloc(exa, 0, size, owner, true, k.memory);
    StillUndisturbed(old(Where(exa)), w, Where(exa));
    ok := data >= 0;
    forall q | q in pools ensures q.remain == old(q.remain) {
      assert LookOf(q) == old(LookOf(q));
    }
    assert Remains(pools) == old(Remains(exa.pools));
  }

  /** A pool of whole 64 KiB with nothing in it but the request that it was made for */
  ghost predicate MadeFor(p: Pool, size: nat)
    reads p`remain
  {
    p.poolSize % (64 * 1024) == 0 && size <= p.poolSize < size + 64 * 1024 && p.remain == p.poolSize - size
  }

  lemma OneMore(w: Places, w': Places)
    requires forall p {:trigger w[p]} :: p in w ==> p in w' && w'[p] == w[p]
    ensures Undisturbed(w, w')
  {
  }

  method PrependOne(exa: Exa, p: Pool)
    requires exa.ValidWith({p})
    modifies exa`pools
    ensures exa.Valid() && exa.pools == [p] + old(exa.pools)
  {
    hide Good;
    assert Set([p] + exa.pools) + {} == Set(exa.pools) + {p};
    exa.pools := [p] + exa.pools;
  }

  /** No gap of the pool takes the request. */
  ghost predicate NoGap(p: Pool, size: int)
    reads p`used, p`entries
  {
    |p.used| == |p.entries| && NoFit(p.T(), p.poolSize, size)
  }

  /** A pool that compaction provides, once one is due: with memory for its bitmap it takes the request. */
  method CompactAndTry(exa: Exa, size: nat, owner: Owner, blockcnt: nat, clock: Clock, k: Kernel) returns (ok: bool)
    requires exa.Valid() && owner !in exa.all && 0 < size <= POOL_SIZE_MAX && size % ALIGN == 0
    modifies exa, exa.Repr, owner
    ensures exa.Valid() && fresh(exa.Repr - old(exa.Repr) - {owner})
    ensures if ok then Gained(exa, owner, size, old(exa.all)) else exa.all == old(exa.all)
    ensures old(exa.NoneEmpty()) ==> exa.NoneEmpty()
    ensures old(exa.Open(k.memory)) ==> exa.Open(k.memory)
    ensures blockcnt > 0 ==> Undisturbed(old(Where(exa)), Where(exa))
    ensures var slow := old(SlowDue(exa, blockcnt, clock));
            var fast := old(exa.pools) != [] && FastDue(exa.pools, old(exa.fastTime), size, blockcnt, clock);
            && (!slow ==> Set(exa.pools) == old(Set(exa.pools)))
            && exa.slowTime == (if slow then clock.slowEnd else old(exa.slowTime))
            && (!slow && ok ==> owner.pool in old(exa.pools))
            && (!slow && !ok ==> exa.pools == old(exa.pools) && Remains(exa.pools) == old(Remains(exa.pools)))
            && (!ok && k.memory && (slow || fast) ==> NoneHas(exa.pools, if fast then size else 640 * 1024))
  {
    hide Good, Exa.ValidWith, Gained, Where, Spare, Exa.NoneEmpty, Exa.Open, Serves, Remains, Turned, Undisturbed;
    ok := false;
    Outside(exa);
    NotDisturbed(Where(exa));
    var p, _ := CompactPools(exa, size, blockcnt, clock, k);
    if p != null {
      var i :| 0 <= i < |exa.pools| && exa.pools[i] == p;
      DistinctPools(exa, {});
      DropSet(exa.pools, i);
      ghost var look := LookOf(p);
      var data := PoolAlloc(exa, i, size, owner, false, k.memory);
      ok := data >= 0;
      if !ok && k.memory { TurnedForSpace(look, LookOf(p), p.poolSize, size); }
    }
  }

  /** Room in the pools that there are: one that has it, or one that compaction provides. A pool that has a
      gap with a slot, or is packed and has space, is found at once. With memory for the bitmaps there is
      no room only if no pool has a gap, and if no pool has the space once a compaction was due. */
  method AllocFromOld(exa: Exa, size: nat, owner: Owner, blockcnt: nat, clock: Clock, k: Kernel) returns (ok: bool)
    requires exa.Valid() && owner !in exa.all && 0 < size <= POOL_SIZE_MAX && size % ALIGN == 0
    modifies exa, exa.Repr, owner
    ensures exa.Valid() && fresh(exa.Repr - old(exa.Repr) - {owner})
    ensures if ok then Gained(exa, owner, size, old(exa.all)) else exa.all == old(exa.all)
    ensures old(exa.NoneEmpty()) ==> exa.NoneEmpty()
    ensures old(exa.Open(k.memory)) ==> exa.Open(k.memory)
    ensures blockcnt > 0 ==> Undisturbed(old(Where(exa)), Where(exa))
    ensures forall q {:trigger q in old(exa.pools)} ::
              q in old(exa.pools) && old(Serves(LookOf(q), q.poolSize, size)) ==>
              ok && owner.pool in old(exa.pools) && Set(exa.pools) == old(Set(exa.pools))
    ensures !ok && k.memory ==> forall q {:trigger q in old(exa.pools)} :: q in old(exa.pools) ==> old(NoGap(q, size))
    ensures var slow := old(Spare(exa.pools) >= size && SlowDue(exa, blockcnt, clock));
            var fast := old(exa.pools != [] && Spare(exa.pools) >= size)
                        && FastDue(exa.pools, old(exa.fastTime), size, blockcnt, clock);
            && (!slow ==> Set(exa.pools) == old(Set(exa.pools)) && exa.slowTime == old(exa.slowTime))
            && (slow && !ok ==> exa.slowTime == clock.slowEnd)
            && (!slow && ok ==> owner.pool in old(exa.pools))
            && (!slow && !ok ==> exa.pools == old(exa.pools) && Remains(exa.pools) == old(Remains(exa.pools)))
            && (!ok && k.memory && (slow || fast) ==> NoneHas(exa.pools, if fast then size else 640 * 1024))
  {
    hide Good, Exa.ValidWith, Gained, Undisturbed, Where, Lists.Sum, Exa.NoneEmpty, Exa.Open, Serves, Turned, NoneHas,
         Remains;
    Outside(exa);
    ghost var w := Where(exa);
    var data := TryAll(exa, size, owner, k.memory);
    if data >= 0 {
      return true;
    }
    forall q | q in exa.pools
      ensures !old(Serves(LookOf(q), q.poolSize, size)) && (k.memory ==> old(NoGap(q, size)))
    {
      TurnedMeans(old(LookOf(q)), LookOf(q), q.poolSize, size, k.memory);
    }
    var spare := TotalSpace(exa);
    ok := false;
    if spare >= size {
      ghost var w1 := Where(exa);
      ok := CompactAndTry(exa, size, owner, blockcnt, clock, k);
      if blockcnt > 0 { StillUndisturbed(w, w1, Where(exa)); }
    }
  }

  /** A new pool, or once again after a slow compaction if memory is scarce and one is allowed. */
  method NewOrAgain(exa: Exa, size: nat, owner: Owner, blockcnt: nat, clock: Clock, k: Kernel) returns (ok: bool)
    requires exa.Valid() && owner !in exa.all && 0 < size <= POOL_SIZE_MAX && size % ALIGN == 0
    modifies exa, exa.Repr, owner
    ensures exa.Valid() && fresh(exa.Repr - old(exa.Repr) - {owner})
    ensures if ok then Gained(exa, owner, size, old(exa.all)) else exa.all == old(exa.all)
    ensures old(exa.NoneEmpty()) ==> exa.NoneEmpty()
    ensures old(exa.Open(k.memory)) ==> exa.Open(k.memory)
    ensures blockcnt > 0 ==> Undisturbed(old(Where(exa)), Where(exa))
    ensures ok ==> exa.pools != [] && exa.pools[0] == owner.pool && fresh(owner.pool) && MadeFor(owner.pool, size)
    ensures k.buffers ==> ok && exa.pools[1..] == old(exa.pools) && Remains(exa.pools[1..]) == old(Remains(exa.pools))
    ensures k.buffers ==> exa.slowTime == old(exa.slowTime) && exa.fastTime == old(exa.fastTime)
    ensures !ok && k.scarce && blockcnt == 0 && clock.again - old(exa.slowTime) >= 15 ==>
              !k.freed && exa.slowTime == clock.againEnd
  {
    hide Good, Exa.ValidWith, Gained, Undisturbed, Where, Lists.Sum, Exa.NoneEmpty, Exa.Open, Remains, MadeFor, Stuck,
         AwayWith, Examined, Content, Slack, HalvesIn, OpenPool;
    Outside(exa);
    NotDisturbed(Where(exa));
    ok := AllocFromNew(exa, size, owner, k);
    if !ok && k.scarce {
      var again := SlowAllowed(exa, blockcnt, clock.again, 0);
      if again {
        var _, _ := CompactPoolsSlow(exa, k, clock.againEnd);
        ok := AllocFromNew(exa, size, owner, k.(buffers := k.buffers || k.freed));
      }
    }
  }

  /** `tegra_exa_pixmap_allocate_from_small_pool`: it fails for sizes that no small pool serves and when
      no buffer can be had; what was allocated before keeps its bytes either way, and even its place
      while the batch of 3D jobs is waiting. A new pool is `made` only if no pool has a gap and no
      compaction that was due has found the space. */
  method AllocSmall(exa: Exa, bytes: nat, owner: Owner, blockcnt: nat, clock: Clock, k: Kernel)
    returns (r: Outcome, ghost made: bool)
    requires exa.Valid() && owner !in exa.all && 0 < bytes
    modifies exa, exa.Repr, owner
    ensures exa.Valid() && fresh(exa.Repr - old(exa.Repr) - {owner})
    ensures r.TooLarge? <==> AlignSize(bytes) > 96 * 1024
    ensures if r.Allocated? then Gained(exa, owner, AlignSize(bytes), old(exa.all)) else exa.all == old(exa.all)
    ensures k.buffers ==> !r.NoBuffer?
    ensures old(exa.NoneEmpty()) ==> exa.NoneEmpty()
    ensures old(exa.Open(k.memory)) ==> exa.Open(k.memory)
    ensures blockcnt > 0 ==> Undisturbed(old(Where(exa)), Where(exa))
    ensures var slow := old(Spare(exa.pools) >= AlignSize(bytes) && SlowDue(exa, blockcnt, clock));
            && r.NoBuffer? && k.scarce && blockcnt == 0
            && clock.again - (if slow then clock.slowEnd else old(exa.slowTime)) >= 15 ==>
              !k.freed && exa.slowTime == clock.againEnd
    ensures forall q {:trigger q in old(exa.pools)} ::
              && !r.TooLarge? && q in old(exa.pools) && old(Serves(LookOf(q), q.poolSize, AlignSize(bytes))) ==>
                r.Allocated? && owner.pool in old(exa.pools) && Set(exa.pools) == old(Set(exa.pools))
    ensures made ==>
              && r.Allocated? && exa.pools != [] && exa.pools[0] == owner.pool && fresh(owner.pool)
              && MadeFor(owner.pool, AlignSize(bytes))
    ensures (made || r.NoBuffer?) && k.memory ==>
              forall q {:trigger q in old(exa.pools)} :: q in old(exa.pools) ==> old(NoGap(q, AlignSize(bytes)))
    ensures var size := AlignSize(bytes);
            var slow := old(Spare(exa.pools) >= size && SlowDue(exa, blockcnt, clock));
            && (!slow && r.Allocated? && !made ==>
                  owner.pool in old(exa.pools) && Set(exa.pools) == old(Set(exa.pools)))
            && (made && k.buffers && k.memory ==>
                  var rest := exa.pools[1..];
                  var fast := old(exa.pools != [] && Spare(exa.pools) >= size)
                              && FastDue(rest, old(exa.fastTime), size, blockcnt, clock);
                  && (!slow ==> rest == old(exa.pools) && Remains(rest) == old(Remains(exa.pools)))
                  && (slow || fast ==> NoneHas(rest, if fast then size else 640 * 1024)))
  {
    hide Good, Exa.ValidWith, Gained, Undisturbed, Where, Lists.Sum, Exa.NoneEmpty, Exa.Open, Serves, Turned, NoneOf,
         Remains, NoGap, MadeFor;
    Outside(exa);
    var size := AlignSize(bytes);
    NotDisturbed(Where(exa));
    made := false;
    if size > POOL_SIZE_MAX {
      return TooLarge, false;
    }
    var ok := AllocFromOld(exa, size, owner, blockcnt, clock, k);
    if ok {
      return Allocated, false;
    }
    ghost var w := Where(exa);
    ok := NewOrAgain(exa, size, owner, blockcnt, clock, k);
    if blockcnt > 0 { StillUndisturbed(old(Where(exa)), w, Where(exa)); }
    made := ok;
    r := if ok then Allocated else NoBuffer;
  }

  // ---- Freeing ------------------------------------------------------------------------------------

  lemma IdFits(p: Pool, o: Owner?)
    requires PoolOk(p) && o in p.slot
    ensures o != null && 0 <= o.id < 0x1_0000
  {
    hide PoolContents.Holds, Bitmap.Agrees, PoolLayout.Packed, PoolLayout.HasFree, PoolLayout.Total;
    HandlePool(p, o);
    SlotFitsHandle(p.T(), p.poolSize, p.slot[o]);
  }

  /** The back-pointer of a live handle names the one pool that holds it, and the 16-bit slot number fits. */
  lemma HolderIs(s: set<Pool>, all: Live, r: set<object?>, o: Owner?)
    requires s <= r && Good(s, all, r) && o in all
    ensures o != null && o in r && o.pool != null && o.pool in s && o in o.pool.live && o.pool.live[o] == all[o]
    ensures 0 <= o.id < 0x1_0000
    ensures forall p {:trigger p.slot} :: p in s && p != o.pool ==> o !in p.slot
  {
    hide Pool.Valid;
    var p := TieStep(all, LivesOf(s), o);
    assert PoolOk(p);
    OkLiveKeys(p);
    HandleLeads(p, o);
    IdFits(p, o);
    assert p.slot.Keys <= r;
    forall q | q in s && q != p ensures o !in q.slot {
      assert Separate(p, q);
    }
  }

  method FreeOk(owner: Owner)
    requires owner.pool != null && PoolOk(owner.pool) && owner in owner.pool.live
    modifies owner.pool`words, owner.pool`used, owner.pool`slot, owner.pool`live, owner.pool`remain,
             owner.pool`bitmapFull, owner.pool`fragmented
    ensures owner.pool == old(owner.pool) && PoolOk(owner.pool)
    ensures owner.pool.live == old(owner.pool.live) - {owner}
    ensures owner.pool.slot.Keys == old(owner.pool.slot.Keys) - {owner}
    ensures owner.pool.Offsets() == old(owner.pool.Offsets()) - {owner} && old(owner.pool.remain) <= owner.pool.remain
  {
    hide Pool.Valid;
    OkLiveKeys(owner.pool);
    Free(owner);
  }

  /** `mem_pool_free` in one of the pools, as all of them see it. */
  method FreeIn(owner: Owner, ghost s: set<Pool>, ghost all: Live, ghost r: set<object?>)
    requires s <= r && Good(s, all, r) && owner in all && owner.pool != null && owner.pool in s
    modifies owner.pool`words, owner.pool`used, owner.pool`slot, owner.pool`live, owner.pool`remain,
             owner.pool`bitmapFull, owner.pool`fragmented
    ensures Good(s, all - {owner}, r) && owner.pool == old(owner.pool)
    ensures forall q {:trigger q.Offsets()} :: q in s ==> q.Offsets() == old(q.Offsets()) - {owner}
  {
    hide PoolOk, Tie;
    HolderIs(s, all, r, owner);
    var p := owner.pool;
    assert PoolOk(p);
    FreeOk(owner);
    forall q | q in s && q != p
      ensures PoolOk(q) && q.slot == old(q.slot) && q.live == old(q.live) && owner !in q.live
    {
      assert old(PoolOk(q) && Separate(q, p));
      OkLiveKeys(q);
    }
    forall x, y | x in s && y in s && x != y ensures Separate(x, y) {
      assert old(Separate(x, y));
    }
    TieRemove(all, old(LivesOf(s)), LivesOf(s), p, owner);
  }

  /** The handle of a freed allocation is nobody's back-pointer any more, so it can be reset. */
  method Forget(exa: Exa, owner: Owner)
    requires exa.Valid() && owner !in exa.all
    modifies owner
    ensures exa.Valid() && owner.pool == null && owner.id == -1
  {
    hide Pool.Valid, Tie;
    ghost var s := Set(exa.pools) + {};
    Unknown(s, exa.all, exa.Repr, owner);
    owner.pool, owner.id := null, -1;
    forall q | q in s ensures PoolOk(q) {
      assert old(PoolOk(q));
    }
    assert LivesOf(s) == old(LivesOf(s));
    forall x, y | x in s && y in s && x != y ensures Separate(x, y) {
      assert old(Separate(x, y));
    }
  }

  lemma EmptyLeadsNowhere(exa: Exa, p: Pool)
    requires exa.Valid() && p in exa.pools && p.Empty()
    ensures p.Offsets() == map[]
  {
    hide Good, Pool.Valid;
    Footprint(p, Set(exa.pools) + {}, exa.all, exa.Repr);
    EmptyHoldsNothing(p);
    OkLiveKeys(p);
    assert p.slot.Keys == {};
  }

  /** `tegra_exa_pixmap_pool_free_entry`: only this allocation goes, and its pool exactly if that empties
      it. Nothing is moved. */
  method FreeEntry(exa: Exa, owner: Owner)
    requires exa.Valid() && owner in exa.all
    modifies exa`pools, exa`light, exa`heavy, exa`all, exa`Repr, exa.Repr
    ensures exa.Valid() && exa.all == old(exa.all) - {owner} && exa.Repr == old(exa.Repr)
    ensures owner.pool == null && owner.id == -1
    ensures old(owner.pool) in old(exa.pools)
    ensures if !old(owner.pool).Empty() then exa.pools == old(exa.pools) else
              exists i ::
                0 <= i < old(|exa.pools|) && exa.pools == Drop(old(exa.pools), i) && old(exa.pools[i] == owner.pool)
    ensures forall q {:trigger q.Offsets()} :: q in old(exa.pools) ==> q.Offsets() == old(q.Offsets()) - {owner}
    ensures old(owner.pool).Empty() ==> old(owner.pool).Offsets() == map[]
    ensures old(exa.NoneEmpty()) ==> exa.NoneEmpty()
  {
    hide Good, Pool.Offsets;
    HolderIs(Set(exa.pools) + {}, exa.all, exa.Repr, owner);
    var pool: Pool := owner.pool;
    assert pool in Set(exa.pools) + {};
    FreeIn(owner, Set(exa.pools) + {}, exa.all, exa.Repr);
    exa.all := exa.all - {owner};
    if pool.Empty() {
      EmptyLeadsNowhere(exa, pool);
      var i :| 0 <= i < |exa.pools| && exa.pools[i] == pool;
      Destroy(exa, i, {});
      assert pool !in Set(exa.pools);
    }
    Forget(exa, owner);
    if old(exa.NoneEmpty()) {
      forall q | q in exa.pools ensures !q.Empty() {
        assert q in Set(exa.pools) && (q != pool ==> q.remain == old(q.remain));
      }
    }
  }
}
