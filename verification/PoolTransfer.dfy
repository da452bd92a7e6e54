/** Moving entries from one pool to another: `mem_pool_transfer_entries` and its fast form. */
module PoolTransfer {
  import opened Bitmap
  import opened PoolLayout
  import opened PoolContents
  import opened VfpCopy
  import opened MemPool

  ghost predicate Ok(p: Pool)
    reads p, p.mem, p.slot.Keys
  {
    p.Structure() && p.Tied() && p.Accounted()
  }

  /** A bitmap counts as full only if it did, or was refused growth when no slot followed the last entry. */
  ghost predicate Shut(full: bool, t: Table<Owner?>, was: bool, t0: Table<Owner?>, memory: bool) {
    full ==> (was && t == t0) || (!memory && LastUsed(t))
  }

  /** Two pools that are open for access at the same time. */
  ghost predicate Pair(to: Pool, from: Pool)
    reads to`accessRefcount, to`vbase, from`accessRefcount, from`vbase
  {
    to != from && MappedApart(to, from) && to.Mapped() && from.Mapped()
  }

  ghost function Restrict<K, V>(m: map<K, V>, s: set<K>): (r: map<K, V>)
    ensures r.Keys == m.Keys * s
  {
    map k | k in m && k in s :: m[k]
  }

  /** Appending an entry behind a packed prefix. */
  lemma Appends(t: Table<Owner?>, n: int, k: nat, e: Entry<Owner?>)
    requires Layout(t, n) && Packed(t, k) && HasFree(t) && e.base == Tail(t, k)
    requires 0 < e.size <= n - Total(t) && e.size % ALIGN == 0
    ensures k < |t.used| && !t.used[k] && Vacated(t, k) == t && Fits(Vacated(t, k), k, e, n) && 0 <= e.base
    ensures Packed(Place(t, k, e), k + 1) && Total(Place(t, k, e)) == Total(t) + e.size
    ensures |Place(t, k, e).used| == |Place(t, k, e).entries| == |t.used| && Tail(Place(t, k, e), k + 1) == e.End()
  {
    PackedFits(t, n, k, e.size);
    HeadFits(t, n, k, e);
    PackedPlace(t, k, k, e);
    SumPlace(t, k, e, |t.used|);
    FitsBounds(t, k, e, n);
  }

  lemma VacantWithout<V>(t: Table<Owner?>, m: map<Owner?, V>, k: nat)
    requires k < |t.used| == |t.entries| && !t.used[k]
    ensures Without(t, m, k) == m
  {
  }

  /** The bookkeeping of one departed entry. */
  lemma DepartTotals(t: Table<Owner?>, n: int, i: nat)
    requires Layout(t, n) && t.Used(i) && 0 <= n
    ensures |t.used| == |t.entries| && EntryOk(t.entries[i], i, n) && HasFree(Clear(t, i))
    ensures Total(Clear(t, i)) == Total(t) - t.entries[i].size && 0 <= Total(Clear(t, i)) && Total(t) <= n
    ensures Count(Clear(t, i), |t.used|) == Count(t, |t.used|) - 1
    ensures t.entries[i].size <= Total(t) && |Clear(t, i).used| == |Clear(t, i).entries|
  {
    assert t.used[i] && !Clear(t, i).used[i];
    SumClear(t, i, |t.used|);
    ClearOk(t, i, n);
    TotalBounds(Clear(t, i), n, |t.used|);
    TotalBounds(t, n, |t.used|);
  }

  lemma OkTable(p: Pool)
    requires Ok(p)
    ensures |p.used| == |p.entries| && Layout(p.T(), p.poolSize) && Owned(p.T(), p.slot)
    ensures p.live.Keys == p.slot.Keys && 0 <= p.remain == p.poolSize - Total(p.T())
    ensures p.Structure() && p.Tied()
  {
  }

  lemma TableOk(p: Pool)
    requires p.Structure() && p.Tied() && |p.used| == |p.entries| && 0 <= p.remain == p.poolSize - Total(p.T())
    ensures Ok(p)
  {
  }

  /** One entry goes to the end of the packed pool `to`; the space that is left is not yet counted anew. */
  method AppendMove(to: Pool, from: Pool, bFrom: nat, k: nat, newBase: nat)
    requires Pair(to, from) && Ok(to) && Ok(from) && from.T().Used(bFrom)
    requires Packed(to.T(), k) && HasFree(to.T()) && newBase == Tail(to.T(), k)
    requires from.entries[bFrom].size <= to.remain
    modifies from`words, from`used, from`slot, from`live, to`words, to`used, to`entries, to`slot, to`live, to.mem,
             from.slot.Keys
    ensures to.Structure() && to.Tied() && from.Structure() && from.Tied()
    ensures Packed(to.T(), k + 1) && |to.used| == old(|to.used|) == |to.entries| && |from.used| == |from.entries|
    ensures var size := old(from.entries[bFrom].size);
            && 0 < size <= to.remain && newBase + size == Tail(to.T(), k + 1)
            && to.remain - size == to.poolSize - Total(to.T()) && from.remain + size == from.poolSize - Total(from.T())
    ensures 0 <= from.remain && from.T() == Clear(old(from.T()), bFrom) && HasFree(from.T())
    ensures var o := old(from.entries[bFrom].owner);
            && o in old(from.live) && o !in old(to.live)
            && from.slot == old(from.slot) - {o} && from.live == old(from.live) - {o}
            && to.slot.Keys == old(to.slot.Keys) + {o} && to.live == old(to.live)[o := old(from.live)[o]]
  {
    hide PoolContents.Holds, PoolContents.Owned, PoolLayout.Layout, Bitmap.Agrees, PoolLayout.Packed,
         PoolLayout.HasFree, PoolLayout.Fits, PoolContents.Vacated, PoolContents.Without, PoolLayout.Total,
         PoolLayout.Head, PoolLayout.Clear, PoolLayout.Tail, PoolLayout.Place, Pool.Structure, Pool.Tied, Ok;
    OkTable(to);
    OkTable(from);
    ghost var t, f := to.T(), from.T();
    OwnerOf(f, from.slot, bFrom);
    DepartTotals(f, from.poolSize, bFrom);
    Appends(t, to.poolSize, k, from.entries[bFrom].(base := newBase));
    VacantWithout(t, to.slot, k);
    VacantWithout(t, to.live, k);
    MigrateAcross(from, to, bFrom, k, newBase);
  }

  /** One entry moves from `from` to the end of the packed pool `to`. */
  method AppendOne(to: Pool, from: Pool, bFrom: nat, k: nat, newBase: nat) returns (size: int)
    requires Pair(to, from) && Ok(to) && Ok(from) && from.T().Used(bFrom)
    requires Packed(to.T(), k) && HasFree(to.T()) && newBase == Tail(to.T(), k)
    requires from.entries[bFrom].size <= to.remain
    modifies from`words, from`used, from`slot, from`live, from`remain, to`words, to`used, to`entries, to`slot,
             to`live, to`remain, to.mem, from.slot.Keys
    ensures Ok(to) && Ok(from) && Packed(to.T(), k + 1) && |to.used| == old(|to.used|)
    ensures size == old(from.entries[bFrom].size) > 0
    ensures to.remain == old(to.remain) - size && from.remain == old(from.remain) + size
    ensures newBase + size == Tail(to.T(), k + 1)
    ensures from.T() == Clear(old(from.T()), bFrom) && HasFree(from.T())
    ensures var o := old(from.entries[bFrom].owner);
            && o in old(from.live) && o !in old(to.live)
            && from.slot == old(from.slot) - {o} && from.live == old(from.live) - {o}
            && to.slot.Keys == old(to.slot.Keys) + {o} && to.live == old(to.live)[o := old(from.live)[o]]
  {
    hide PoolContents.Holds, PoolContents.Owned, PoolLayout.Layout, Bitmap.Agrees, PoolLayout.Packed,
         PoolLayout.HasFree, PoolLayout.Fits, PoolContents.Vacated, PoolContents.Without, PoolLayout.Total,
         PoolLayout.Head, PoolLayout.Clear, PoolLayout.Tail, PoolLayout.Place, Pool.Structure, Pool.Tied, Ok;
    OkTable(from);
    size := from.entries[bFrom].size;
    AppendMove(to, from, bFrom, k, newBase);
    from.remain, to.remain := from.remain + size, to.remain - size;
    TableOk(to);
    TableOk(from);
  }

  lemma LiveKeys(p: Pool)
    requires p.Structure()
    ensures p.live.Keys == p.slot.Keys
  {
  }

  /** No entry left behind up to slot `b` fits the target any more. */
  ghost predicate TooLargeUpTo(from: Table<Owner?>, b: int, limit: int) {
    |from.used| == |from.entries|
    && forall i :: 0 <= i <= b && i < |from.used| && from.used[i] ==> from.entries[i].size > limit
  }

  lemma TooLargeStep(f: Table<Owner?>, f': Table<Owner?>, b: nat, limit: int, limit': int)
    requires b < |f.used| && TooLargeUpTo(f, b - 1, limit) && f' == Clear(f, b) && limit' <= limit
    ensures TooLargeUpTo(f', b, limit')
  {
  }

  lemma TooLargeNone(f: Table<Owner?>, limit: int)
    requires |f.used| == |f.entries|
    ensures TooLargeUpTo(f, -1, limit)
  {
  }

  lemma SizesPositive(f: Table<Owner?>, n: int)
    requires Layout(f, n)
    ensures TooLargeUpTo(f, |f.used|, 0)
  {
    forall i | 0 <= i < |f.used| && f.used[i] ensures f.entries[i].size > 0 {
      assert EntryOk(f.entries[i], i, n);
    }
  }

  /** The scan of the source pool skips the entries that are too large for the target. */
  method NextFitting(from: Pool, b0: int, limit: int) returns (b: int)
    requires Ok(from) && -1 <= b0 && TooLargeUpTo(from.T(), b0, limit)
    ensures b == -1 || (b0 < b < |from.used| && from.used[b] && from.entries[b].size <= limit)
    ensures TooLargeUpTo(from.T(), if b == -1 then |from.used| else b - 1, limit)
  {
    hide PoolContents.Holds, PoolContents.Owned, PoolLayout.Layout, Bitmap.Agrees;
    b := b0;
    while true
      invariant b0 <= b && (b > b0 ==> b < |from.used|)
      invariant TooLargeUpTo(from.T(), b, limit)
      decreases |from.used| - b
    {
      b := NextUsed(from.words, from.used, b + 1);
      if b == -1 || from.entries[b].size <= limit { return; }
    }
  }

  /** What a transfer has done so far: the handles in `moved` changed pools and took their bytes
      along, all others stayed, and the space moved with them. */
  ghost predicate Carried(toLive0: map<Owner?, seq<byte>>, fromLive0: map<Owner?, seq<byte>>,
                          toLive: map<Owner?, seq<byte>>, fromLive: map<Owner?, seq<byte>>, moved: set<Owner?>) {
    && moved <= fromLive0.Keys && moved !! toLive0.Keys
    && fromLive == fromLive0 - moved
    && toLive == toLive0 + Restrict(fromLive0, moved)
  }

  lemma CarriedNone(a: map<Owner?, seq<byte>>, b: map<Owner?, seq<byte>>)
    ensures Carried(a, b, a, b, {})
  {
  }

  lemma CarriedOne(a0: map<Owner?, seq<byte>>, b0: map<Owner?, seq<byte>>, a: map<Owner?, seq<byte>>, b: map<Owner?,
                   seq<byte>>,
                   moved: set<Owner?>, o: Owner?)
    requires Carried(a0, b0, a, b, moved) && o in b && o !in a
    ensures Carried(a0, b0, a[o := b[o]], b - {o}, moved + {o})
  {
    assert b[o] == b0[o];
    assert a[o := b[o]] == a0 + Restrict(b0, moved + {o});
  }

  /** No two pools share a handle. */
  lemma Disjoint(to: Pool, from: Pool)
    requires to != from && Ok(to) && Ok(from)
    ensures to.live.Keys !! from.live.Keys && to.slot.Keys !! from.slot.Keys
  {
    LiveKeys(to);
    LiveKeys(from);
    if o :| o in to.slot && o in from.slot {
      HandlePool(to, o);
      HandlePool(from, o);
    }
  }

  lemma HandlePool(p: Pool, o: Owner?)
    requires p.Tied() && o in p.slot
    ensures o != null && o.pool == p && o.id == p.slot[o]
  {
    assert p.slot[o] == p.slot[o];
  }

  /** Where appending starts: an empty pool, or one that was defragmented first. */
  method PrepareTarget(to: Pool) returns (bTo: int, newBase: nat)
    requires to.Valid() && to.Mapped() && !to.Full()
    modifies to`words, to`used, to`entries, to`slot, to`fragmented, to.mem, to.slot.Keys
    ensures to.Valid() && to.slot.Keys == old(to.slot.Keys) && |to.used| == old(|to.used|)
    ensures -1 <= bTo < |to.used| && Packed(to.T(), bTo + 1) && newBase == Tail(to.T(), bTo + 1) && HasFree(to.T())
  {
    hide PoolContents.Holds, PoolContents.Owned, PoolLayout.Layout, Bitmap.Agrees, PoolLayout.Packed,
         PoolLayout.HasFree, Pushed, NoneOpen;
    TotalBounds(to.T(), to.poolSize, |to.used|);
    if to.Empty() {
      bTo, newBase := -1, 0;
      EmptyPacked(to.T());
    } else {
      bTo := DefragPool(to, MAX_ULONG, true);
      TailInPool(to.T(), to.poolSize, bTo);
      newBase := to.entries[bTo].base + to.entries[bTo].size;
    }
  }

  lemma EmptyPacked(t: Table<Owner?>)
    requires |t.used| == |t.entries| && forall i :: 0 <= i < |t.used| ==> !t.used[i]
    ensures Packed(t, 0)
  {
  }

  lemma TailInPool(t: Table<Owner?>, n: int, b: nat)
    requires Layout(t, n) && Packed(t, b + 1)
    ensures b < |t.used| && 0 <= t.entries[b].base && 0 < t.entries[b].size
  {
    assert t.used[b] && EntryOk(t.entries[b], b, n);
  }

  /** Both pools when a transfer starts. */
  datatype Start = Start(toLive: map<Owner?, seq<byte>>, fromLive: map<Owner?, seq<byte>>, toKeys: set<Owner?>,
                         fromKeys: set<Owner?>, toRemain: int, fromRemain: int, toTable: Table<Owner?>,
                         fromTable: Table<Owner?>)

  /** Handles, contents and space after `bytes` bytes in the entries of `moved` have been transferred. */
  ghost predicate Progress(st: Start, now: Start, bytes: int, moved: set<Owner?>) {
    && bytes == st.toRemain - now.toRemain == now.fromRemain - st.fromRemain && 0 <= bytes
    && Carried(st.toLive, st.fromLive, now.toLive, now.fromLive, moved)
    && now.toKeys == st.toKeys + moved && now.fromKeys == st.fromKeys - moved
    && if bytes == 0 then now.fromTable == st.fromTable && moved == {} else HasFree(now.fromTable)
  }

  ghost function Now(to: Pool, from: Pool): Start
    reads to, from
  {
    Start(to.live, from.live, to.slot.Keys, from.slot.Keys, to.remain, from.remain, to.T(), from.T())
  }

  lemma ProgressNone(st: Start)
    ensures Progress(st, st, 0, {})
  {
    CarriedNone(st.toLive, st.fromLive);
  }

  lemma ProgressOne(st: Start, now: Start, now': Start, bytes: int, moved: set<Owner?>, o: Owner?, size: int)
    requires Progress(st, now, bytes, moved) && size > 0 && HasFree(now'.fromTable)
    requires o in now.fromLive && o !in now.toLive && now.toKeys == now.toLive.Keys && now.fromKeys == now.fromLive.Keys
    requires now'.toLive == now.toLive[o := now.fromLive[o]] && now'.fromLive == now.fromLive - {o}
    requires now'.toKeys == now.toKeys + {o} && now'.fromKeys == now.fromKeys - {o}
    requires now'.toRemain == now.toRemain - size && now'.fromRemain == now.fromRemain + size
    ensures Progress(st, now', bytes + size, moved + {o})
  {
    CarriedOne(st.toLive, st.fromLive, now.toLive, now.fromLive, moved, o);
  }

  /** The target's table alone changes. */
  lemma ProgressStays(st: Start, now: Start, now': Start, bytes: int, moved: set<Owner?>)
    requires Progress(st, now, bytes, moved) && now' == now.(toTable := now'.toTable)
    ensures Progress(st, now', bytes, moved)
  {
  }

  /** One entry that fits is appended to the target. */
  method TransferOne(to: Pool, from: Pool, bFrom: nat, k: nat, newBase: nat,
                     ghost st: Start, ghost bytes: int, ghost moved: set<Owner?>)
    returns (size: int, ghost moved': set<Owner?>)
    requires Pair(to, from) && Ok(to) && Ok(from) && from.T().Used(bFrom)
    requires Packed(to.T(), k) && HasFree(to.T()) && newBase == Tail(to.T(), k)
    requires from.entries[bFrom].size <= to.remain && Progress(st, Now(to, from), bytes, moved)
    requires TooLargeUpTo(from.T(), bFrom - 1, to.remain)
    modifies from`words, from`used, from`slot, from`live, from`remain, to`words, to`used, to`entries, to`slot,
             to`live, to`remain, to.mem, from.slot.Keys
    ensures Ok(to) && Ok(from) && Packed(to.T(), k + 1) && |to.used| == old(|to.used|)
    ensures |from.used| == old(|from.used|) && |to.used| == |to.entries|
    ensures size > 0 && to.remain >= 0 && to.remain == old(to.remain) - size
    ensures TooLargeUpTo(from.T(), if to.remain == 0 then |from.used| else bFrom, to.remain)
    ensures from.slot.Keys <= old(from.slot.Keys)
    ensures newBase + size == Tail(to.T(), k + 1) && Progress(st, Now(to, from), bytes + size, moved')
  {
    hide PoolContents.Holds, PoolContents.Owned, PoolLayout.Layout, Bitmap.Agrees, PoolLayout.Packed,
         PoolLayout.HasFree, Progress, PoolLayout.Total, PoolLayout.Clear, TooLargeUpTo;
    ghost var now, f, limit := Now(to, from), from.T(), to.remain;
    LiveKeys(to);
    LiveKeys(from);
    OwnerOf(from.T(), from.slot, bFrom);
    ghost var o := from.entries[bFrom].owner;
    size := AppendOne(to, from, bFrom, k, newBase);
    ProgressOne(st, now, Now(to, from), bytes, moved, o, size);
    moved' := moved + {o};
    TooLargeStep(f, from.T(), bFrom, limit, to.remain);
    ClearLength(f, bFrom);
    if to.remain == 0 { SizesPositive(from.T(), from.poolSize); }
  }

  method NextFreeSlot(to: Pool, k: nat) returns (e: int)
    requires Ok(to) && Packed(to.T(), k)
    ensures e == -1 <==> !HasFree(to.T())
    ensures e != -1 ==> e == k < |to.used|
  {
    hide PoolContents.Holds, PoolContents.Owned, PoolLayout.Layout, Bitmap.Agrees;
    e := NextUnused(to.words, to.used, k);
    FreeBehind(to.T(), k, e);
  }

  lemma NoneFreeLast(t: Table<Owner?>)
    requires !HasFree(t) && t.used != []
    ensures LastUsed(t)
  {
  }

  lemma OkFacts(p: Pool)
    requires Ok(p)
    ensures |p.used| == |p.entries| > 0 && 0 <= p.remain
  {
  }

  /** The target's bitmap grows, or counts as full. */
  method GrowTarget(to: Pool, ghost k: nat, memory: bool) returns (ok: bool)
    requires Ok(to) && Packed(to.T(), k) && !to.bitmapFull
    modifies to`words, to`entries, to`used, to`bitmapFull
    ensures to.bitmapFull <==> !ok
    ensures Ok(to) && Packed(to.T(), k) && (ok ==> HasFree(to.T()))
    ensures Tail(to.T(), k) == old(Tail(to.T(), k)) && |to.used| == |to.entries| >= old(|to.used|)
    ensures memory ==> ok
    ensures !ok ==> to.T() == old(to.T())
  {
    hide PoolContents.Holds, PoolContents.Owned, PoolLayout.Layout, Bitmap.Agrees, PoolLayout.HasFree,
         PoolLayout.Total;
    ghost var t := to.T();
    ghost var more;
    ok, more := GrowBitmap(to, memory);
    TargetGrown(t, more, to.poolSize, k);
    if !ok {
      assert Grown(t, more) == t;
      to.bitmapFull := true;
    }
  }

  /** The transfer loop of `mem_pool_transfer_entries`. */
  method TransferLoop(to: Pool, from: Pool, bTo0: int, newBase0: nat, memory: bool, ghost st: Start)
    returns (bytes: int, ghost moved: set<Owner?>, ghost k: nat)
    requires Pair(to, from) && Ok(to) && Ok(from) && !to.Full() && st == Now(to, from)
    requires -1 <= bTo0 < |to.used| && Packed(to.T(), bTo0 + 1) && newBase0 == Tail(to.T(), bTo0 + 1)
    modifies to`words, to`used, to`entries, to`slot, to`live, to`remain, to`bitmapFull, to.mem,
             from`words, from`used, from`slot, from`live, from`remain, from.slot.Keys
    ensures Ok(to) && Ok(from) && Progress(st, Now(to, from), bytes, moved)
    ensures Packed(to.T(), k)
    ensures !to.bitmapFull && to.remain > 0 ==> HasFree(to.T())
    ensures to.bitmapFull || TooLargeUpTo(from.T(), |from.used|, to.remain)
    ensures to.bitmapFull ==> !memory && !HasFree(to.T())
  {
    hide PoolContents.Holds, PoolContents.Owned, PoolLayout.Layout, Bitmap.Agrees, PoolLayout.Packed,
         PoolLayout.HasFree, Progress, PoolLayout.Total, TooLargeUpTo, PoolLayout.Clear, Ok, MemPool.MappedApart,
         Pool.Mapped;
    var bTo, newBase, bFrom, eTo := bTo0, newBase0, -1, -1;
    bytes, moved, k := 0, {}, bTo0 + 1;
    ProgressNone(st);
    OkFacts(to);
    OkFacts(from);
    TooLargeNone(from.T(), to.remain);
    while true
      invariant Ok(to) && Ok(from) && Pair(to, from) && !to.bitmapFull && to.remain > 0
      invariant -1 <= bTo < |to.used| == |to.entries| && k == bTo + 1 && Packed(to.T(), k) && newBase == Tail(to.T(), k)
      invariant -1 <= bFrom < |from.used| == |st.fromTable.used|
      invariant Progress(st, Now(to, from), bytes, moved)
      invariant TooLargeUpTo(from.T(), bFrom, to.remain)
      invariant from.slot.Keys <= old(from.slot.Keys) && 0 <= newBase
      decreases |from.used| - bFrom, if HasFree(to.T()) then 0 else 1
    {
      eTo := NextFreeSlot(to, bTo + 1);
      if eTo == -1 {
        ghost var now := Now(to, from);
        var ok := GrowTarget(to, bTo + 1, memory);
        ProgressStays(st, now, Now(to, from), bytes, moved);
        if !ok {
          return;
        }
      } else {
        bFrom := NextFitting(from, bFrom, to.remain);
        if bFrom == -1 {
          return;
        }
        var size;
        size, moved := TransferOne(to, from, bFrom, bTo + 1, newBase, st, bytes, moved);
        newBase := newBase + size;
        bytes := bytes + size;
        bTo := eTo;
        k := k + 1;
        if to.remain == 0 {
          return;
        }
      }
    }
  }

  lemma ClearLength(t: Table<Owner?>, i: nat)
    requires i < |t.used|
    ensures |Clear(t, i).used| == |t.used|
  {
  }

  lemma FreeBehind(t: Table<Owner?>, k: nat, e: int)
    requires Packed(t, k) && IsNext(t.used, k, false, e)
    ensures e == -1 <==> !HasFree(t)
    ensures e != -1 ==> e == k < |t.used|
  {
    assert k < |t.used| ==> !t.used[k];
  }

  lemma TargetGrown(t: Table<Owner?>, more: seq<Entry<Owner?>>, n: int, k: nat)
    requires Layout(t, n) && Packed(t, k)
    ensures Total(Grown(t, more)) == Total(t) && (|more| > 0 ==> HasFree(Grown(t, more)))
    ensures Packed(Grown(t, more), k) && Tail(Grown(t, more), k) == Tail(t, k)
    ensures |Grown(t, more).used| == |t.used| + |more|
  {
    GrownOk(t, more, n);
    PackedGrown(t, k, more);
  }

  /** Sizes in the table are the sizes of the live allocations. */
  lemma LeftBehind(p: Pool, limit: int)
    requires Ok(p) && TooLargeUpTo(p.T(), |p.used|, limit)
    ensures forall o {:trigger p.live[o]} :: o in p.live ==> |p.live[o]| > limit
  {
    forall o | o in p.live ensures |p.live[o]| > limit {
      OwnedBy(p.T(), p.slot, o);
      LiveBytes(p.T(), p.slot, p.live, p.mem[..], p.slot[o], p.poolSize);
    }
  }

  /** The source pool's flags after a transfer that moved something. */
  method SettleSource(from: Pool)
    requires Ok(from) && HasFree(from.T())
    modifies from`bitmapFull, from`fragmented
    ensures from.Valid() && !from.bitmapFull && (from.fragmented <==> !from.Empty())
  {
    hide PoolContents.Holds, PoolContents.Owned, PoolLayout.Layout, Bitmap.Agrees, PoolLayout.HasFree,
         PoolLayout.Packed;
    from.bitmapFull := false;
    from.fragmented := !from.Empty();
    TotalBounds(from.T(), from.poolSize, |from.used|);
    if from.Empty() { EmptyPacked(from.T()); }
  }

  /** Nothing that is left in `from` goes to the end of `to` any more. */
  ghost predicate Stuck(to: Pool, from: Pool)
    reads to`remain, to`bitmapFull, from`live
  {
    to.Full() || forall o {:trigger from.live[o]} :: o in from.live ==> |from.live[o]| > to.remain
  }

  /** The transfer into another pool that is not full */
  method TransferApart(to: Pool, from: Pool, memory: bool) returns (bytes: int, ghost moved: set<Owner?>)
    requires to.Valid() && from.Valid() && Pair(to, from) && !to.Full()
    modifies to`words, to`used, to`entries, to`slot, to`live, to`remain, to`bitmapFull, to`fragmented,
             to.mem, from`words, from`used, from`slot, from`live, from`remain, from`bitmapFull, from`fragmented,
             from.slot.Keys, to.slot.Keys
    ensures to.Valid() && from.Valid() && Progress(old(Now(to, from)), Now(to, from), bytes, moved)
    ensures exists k :: Packed(to.T(), k)
    ensures to.bitmapFull ==> !memory && !HasFree(to.T()) && LastUsed(to.T())
    ensures to.bitmapFull || forall o {:trigger from.live[o]} :: o in from.live ==> |from.live[o]| > to.remain
    ensures Shut(from.bitmapFull, from.T(), old(from.bitmapFull), old(from.T()), memory)
    ensures if bytes > 0 then from.fragmented <==> !from.Empty() else from.fragmented == old(from.fragmented)
  {
    hide PoolContents.Holds, PoolContents.Owned, PoolLayout.Layout, Bitmap.Agrees, PoolLayout.Packed,
         PoolLayout.HasFree, TooLargeUpTo, PoolLayout.Total, Pool.Valid, Ok, Carried, PoolLayout.LastUsed;
    ValidOk(from);
    ValidOk(to);
    Disjoint(to, from);
    var bTo, newBase := PrepareTarget(to);
    ghost var k;
    ValidOk(to);
    bytes, moved, k := TransferLoop(to, from, bTo, newBase, memory, Now(to, from));
    OkFacts(to);
    OkValid(to);
    if to.bitmapFull { NoneFreeLast(to.T()); }
    if bytes > 0 {
      SettleSource(from);
    } else {
      OkValid(from);
    }
    ValidOk(from);
    if !to.bitmapFull { LeftBehind(from, to.remain); }
  }

  /** `mem_pool_transfer_entries`: every handle and byte arrives or stays, the space moves along, and
      as much is moved as fits: an entry left behind is larger than what remains in the target, unless
      the target's bitmap could not be grown. */
  method TransferEntries(to: Pool, from: Pool, memory: bool) returns (bytes: int, ghost moved: set<Owner?>)
    requires to.Valid() && from.Valid() && to.Mapped() && from.Mapped() && (to != from ==> MappedApart(to, from))
    modifies to`words, to`used, to`entries, to`slot, to`live, to`remain, to`bitmapFull, to`fragmented,
             to.mem, from`words, from`used, from`slot, from`live, from`remain, from`bitmapFull, from`fragmented,
             from.slot.Keys, to.slot.Keys
    ensures to.Valid() && from.Valid()
    ensures to == from ==>
              bytes == 0 && to.live == old(to.live) && to.slot == old(to.slot) && to.remain == old(to.remain)
    ensures to != from ==> Progress(old(Now(to, from)), Now(to, from), bytes, moved)
    ensures to != from && !old(to.Full()) ==>
              && (exists k :: Packed(to.T(), k))
              && (to.bitmapFull ==> !memory && !HasFree(to.T()))
              && (to.bitmapFull || forall o {:trigger from.live[o]} :: o in from.live ==> |from.live[o]| > to.remain)
    ensures to != from ==> Stuck(to, from) && (old(to.Full()) ==> to.Full() && to.T() == old(to.T()))
    ensures Shut(to.bitmapFull, to.T(), old(to.bitmapFull), old(to.T()), memory)
    ensures Shut(from.bitmapFull, from.T(), old(from.bitmapFull), old(from.T()), memory)
    ensures to != from ==>
              if bytes > 0 then from.fragmented <==> !from.Empty() else from.fragmented == old(from.fragmented)
  {
    hide PoolContents.Holds, PoolContents.Owned, PoolLayout.Layout, Bitmap.Agrees, PoolLayout.Packed,
         PoolLayout.HasFree, PoolLayout.Total, Pool.Valid, Carried, PoolLayout.LastUsed;
    bytes, moved := 0, {};
    ProgressNone(Now(to, from));
    if to.Full() || to == from {
      return;
    }
    bytes, moved := TransferApart(to, from, memory);
  }

  // ---- The fast form ------------------------------------------------------------------------------

  /** Overwriting the placeholder that an allocation left changes no size and no offset. */
  lemma Replaces(t: Table<Owner?>, n: int, i: nat, e: Entry<Owner?>)
    requires Layout(t, n) && t.Used(i) && e.base == t.entries[i].base && e.size == t.entries[i].size
    ensures |t.used| == |t.entries| && Fits(Vacated(t, i), i, e, n) && 0 <= e.base
    ensures SameShape(t, Place(Vacated(t, i), i, e))
  {
    assert t.used[i] && EntryOk(t.entries[i], i, n);
  }

  lemma ReplacedWithout<V>(t: Table<Owner?>, m: map<Owner?, V>, i: nat, m0: map<Owner?, V>, o: Owner?, v: V)
    requires t.Used(i) && |t.used| == |t.entries| && t.entries[i].owner == o && m == m0[o := v] && o !in m0
    ensures Without(t, m, i) == m0
  {
  }

  /** What one successful step of the fast transfer did to the target's table. */
  ghost predicate FastStep(t: Table<Owner?>, t': Table<Owner?>, n: int) {
    && Worse(t, t', n)
    && Count(t', |t'.used|) == Count(t, |t.used|) + 1
  }

  lemma FastStepOk(t: Table<Owner?>, t1: Table<Owner?>, t': Table<Owner?>, n: int,
                   m1: seq<Entry<Owner?>>, e: nat, x: Entry<Owner?>, m2: seq<Entry<Owner?>>)
    requires Layout(t, n) && e < |t.used| + |m1| && t1 == AfterAlloc(t, m1, e, x, m2) && SameShape(t1, t')
    requires FirstFitAt(Grown(t, m1), n, e, x.base, x.size) && 0 < x.size && x.size % ALIGN == 0
    ensures FastStep(t, t', n) && |t'.used| >= |t.used|
  {
    AllocCount(t, m1, e, x, m2);
    ShapeSum(t1, t');
    forall size | NoFit(t, n, size) ensures NoFit(t', n, size) {
      AllocNoFit(t, n, m1, e, x, m2, size);
      FitsTried(t1, n, size);
      FitsTried(t', n, size);
      ShapeTried(t1, t', n, size, |t1.used|);
    }
    forall size | NoSlot(t, n, size) && |t'.used| == |t.used| ensures NoSlot(t', n, size) {
      assert m1 == [] && m2 == [];
      AllocNoSlot(t, n, e, x, size);
      ShapeTried(t1, t', n, size, |t1.used| - 1);
    }
  }

  /** One successful step: the allocated placeholder is replaced by the entry itself. */
  method FastMigrate(to: Pool, from: Pool, bFrom: nat, eTo: nat, ghost emptyTo: Owner, ghost a0: map<Owner?, seq<byte>>,
                     ghost s0: set<Owner?>, ghost garbage: seq<byte>)
    requires bFrom < |from.entries| == |from.used| && from.used[bFrom] && eTo < |to.entries|
    requires to.Placed(emptyTo, to.entries[eTo].base, from.entries[bFrom].size) && to.slot[emptyTo] == eTo
    requires emptyTo !in a0 && emptyTo !in s0 && to.slot.Keys == s0 + {emptyTo} && to.live == a0[emptyTo := garbage]
    requires Pair(to, from) && Ok(to) && Ok(from)
    modifies from`words, from`used, from`slot, from`live, from`remain, to`words, to`used, to`entries, to`slot,
             to`live, to.mem, from.slot.Keys
    ensures Ok(to) && Ok(from) && SameShape(old(to.T()), to.T())
    ensures from.T() == Clear(old(from.T()), bFrom) && HasFree(from.T())
    ensures from.remain == old(from.remain) + old(from.entries[bFrom].size)
    ensures var o := old(from.entries[bFrom].owner);
            && o in old(from.live)
            && from.slot == old(from.slot) - {o} && from.live == old(from.live) - {o}
            && to.slot.Keys == s0 + {o} && to.live == a0[o := old(from.live)[o]]
  {
    hide PoolContents.Holds, PoolContents.Owned, PoolLayout.Layout, Bitmap.Agrees, PoolLayout.HasFree,
         PoolLayout.Fits, PoolContents.Vacated, PoolContents.Without, PoolLayout.Total, PoolLayout.Clear, SameShape,
         Pool.Structure, Pool.Tied, Ok;
    OkTable(to);
    OkTable(from);
    ghost var t, f := to.T(), from.T();
    OwnerOf(f, from.slot, bFrom);
    DepartTotals(f, from.poolSize, bFrom);
    var size := from.entries[bFrom].size;
    Replaces(t, to.poolSize, eTo, from.entries[bFrom].(base := to.entries[eTo].base));
    ReplacedWithout(t, to.live, eTo, a0, emptyTo, garbage);
    WithoutKeys(t, to.slot, eTo, s0, emptyTo);
    MigrateAcross(from, to, bFrom, eTo, to.entries[eTo].base);
    ShapeSum(t, to.T());
    from.remain := from.remain + size;
    TableOk(to);
    TableOk(from);
  }

  lemma WithoutKeys(t: Table<Owner?>, slot: map<Owner?, nat>, i: nat, s0: set<Owner?>, o: Owner?)
    requires t.Used(i) && |t.used| == |t.entries| && t.entries[i].owner == o && slot.Keys == s0 + {o} && o !in s0
    ensures Without(t, slot, i).Keys == s0
  {
  }

  /** A request of this size fits no gap, or without memory for the bitmap no gap that has a slot. */
  ghost predicate Misfit(t: Table<Owner?>, n: int, size: int, memory: bool)
    requires |t.used| == |t.entries|
  {
    if memory then NoFit(t, n, size) else NoSlot(t, n, size)
  }

  /** When the bitmap counts as full: nothing has changed, or it was refused growth when no slot followed
      the last entry. Once it no longer does, it has grown. */
  ghost predicate BitmapKept(full: bool, t: Table<Owner?>, full': bool, t': Table<Owner?>, memory: bool) {
    && Shut(full', t', full, t, memory)
    && (full && !full' ==> |t'.used| > |t.used|)
  }

  /** The allocation without defragmentation that the fast transfer makes for its placeholder. */
  method FastAlloc(to: Pool, size: int, emptyTo: Owner, memory: bool)
    returns (r: int, ghost m1: seq<Entry<Owner?>>, ghost m2: seq<Entry<Owner?>>)
    requires to.Valid() && emptyTo !in to.slot && 0 < size && size % ALIGN == 0
    modifies to`words, to`used, to`entries, to`slot, to`live, to`remain, to`bitmapFull, to`fragmented,
             to.mem, to.slot.Keys, emptyTo
    ensures to.Valid() && Ok(to) && to.fragmented == old(to.fragmented)
    ensures BitmapKept(old(to.bitmapFull), old(to.T()), to.bitmapFull, to.T(), memory)
    ensures to.Flags() && |to.used| == |to.entries| >= old(|to.used|)
    ensures r >= 0 ==>
              && emptyTo in to.slot && to.slot[emptyTo] < |to.entries| && emptyTo.id == to.slot[emptyTo]
              && to.slot.Keys == old(to.slot.Keys) + {emptyTo}
              && to.Placed(emptyTo, to.entries[to.slot[emptyTo]].base, size)
              && r + size <= to.poolSize && to.live == old(to.live)[emptyTo := to.mem[..][r..r + size]]
              && to.remain == old(to.remain) - size
              && to.slot[emptyTo] < old(|to.used|) + |m1|
              && FirstFitAt(Grown(old(to.T()), m1), to.poolSize, to.slot[emptyTo], r, size)
              && to.T() == AfterAlloc(old(to.T()), m1, to.slot[emptyTo], Entry(r, size, emptyTo), m2)
              && (to.bitmapFull && !to.fragmented ==> !HasFree(to.T()))
    ensures r < 0 ==>
              && to.slot.Keys == old(to.slot.Keys) && to.live == old(to.live) && to.remain == old(to.remain)
              && Worse(old(to.T()), to.T(), to.poolSize) && Count(to.T(), |to.used|) == old(Count(to.T(), |to.used|))
              && (Misfit(to.T(), to.poolSize, size, memory) || (!memory && to.bitmapFull))
    ensures !old(to.fragmented) && !old(to.bitmapFull) && size <= old(to.remain) ==> r >= 0
  {
    hide PoolContents.Holds, PoolContents.Owned, PoolLayout.Layout, Bitmap.Agrees, PoolLayout.HasFree,
         PoolLayout.Packed, PoolLayout.Fits, PoolLayout.Total, PoolLayout.Clear, SameShape, PoolLayout.NoFit,
         PoolLayout.FirstFitAt, FastStep, PoolLayout.AfterAlloc, PoolLayout.Grown, Worse;
    ghost var t := to.T();
    r, m1, m2 := Alloc(to, size, emptyTo, false, memory);
    if r >= 0 {
      HandleOk(to, emptyTo);
      AfterLonger(t, m1, to.slot[emptyTo], Entry(r, size, emptyTo), m2);
    } else {
      GrownKeeps(t, to.poolSize, m1);
    }
  }

  lemma HandleOk(p: Pool, o: Owner)
    requires p.Tied() && o in p.slot
    ensures o.pool == p && o.id == p.slot[o]
  {
    HandlePool(p, o);
  }

  lemma AfterLonger(t: Table<Owner?>, m1: seq<Entry<Owner?>>, e: nat, x: Entry<Owner?>, m2: seq<Entry<Owner?>>)
    requires |t.used| == |t.entries| && e < |t.used| + |m1|
    ensures |AfterAlloc(t, m1, e, x, m2).used| >= |t.used|
  {
  }

  /** Every request that fitted nowhere still fits nowhere, and as long as the bitmap does not grow, every
      request that fitted no gap with a slot. */
  ghost predicate Worse(t: Table<Owner?>, t': Table<Owner?>, n: int) {
    && |t.used| == |t.entries| && |t'.used| == |t'.entries| && |t.used| <= |t'.used|
    && (forall size {:trigger NoFit(t', n, size)} :: NoFit(t, n, size) ==> NoFit(t', n, size))
    && (|t.used| == |t'.used| ==>
          forall size {:trigger NoSlot(t', n, size)} :: NoSlot(t, n, size) ==> NoSlot(t', n, size))
  }

  /** One entry of the fast transfer: first-fit in the target decides whether it moves. */
  method FastOne(to: Pool, from: Pool, bFrom: nat, emptyTo: Owner, memory: bool) returns (ok: bool)
    requires bFrom < |from.entries| == |from.used| && from.used[bFrom]
    requires emptyTo !in to.slot && emptyTo !in from.slot
    requires Pair(to, from) && to.Valid() && Ok(from)
    modifies from`words, from`used, from`slot, from`live, from`remain, to`words, to`used, to`entries, to`slot,
             to`live, to`remain, to`bitmapFull, to`fragmented, to.mem, from.slot.Keys, to.slot.Keys,
             emptyTo
    ensures to.Valid() && Ok(from) && to.fragmented == old(to.fragmented)
    ensures |from.used| == old(|from.used|) && |to.used| >= old(|to.used|)
    ensures var o, size := old(from.entries[bFrom].owner), old(from.entries[bFrom].size);
            0 < size && if ok then
              && o in old(from.live) && o !in old(to.live) && o in old(from.slot)
              && from.T() == Clear(old(from.T()), bFrom) && HasFree(from.T())
              && from.slot.Keys == old(from.slot.Keys) - {o} && from.live == old(from.live) - {o}
              && to.slot.Keys == old(to.slot.Keys) + {o} && to.live == old(to.live)[o := old(from.live)[o]]
              && from.remain == old(from.remain) + size && to.remain == old(to.remain) - size
              && FastStep(old(to.T()), to.T(), to.poolSize)
              && (to.bitmapFull && !to.fragmented ==> !HasFree(to.T()))
            else
              && from.T() == old(from.T()) && from.slot == old(from.slot) && from.live == old(from.live)
              && from.remain == old(from.remain)
              && to.slot.Keys == old(to.slot.Keys) && to.live == old(to.live) && to.remain == old(to.remain)
              && Worse(old(to.T()), to.T(), to.poolSize) && Count(to.T(), |to.used|) == old(Count(to.T(), |to.used|))
              && (Misfit(to.T(), to.poolSize, size, memory) || (!memory && to.bitmapFull))
    ensures BitmapKept(old(to.bitmapFull), old(to.T()), to.bitmapFull, to.T(), memory)
    ensures !old(to.fragmented) && !old(to.bitmapFull) && old(from.entries[bFrom].size) <= old(to.remain) ==> ok
  {
    hide PoolContents.Holds, PoolContents.Owned, PoolLayout.Layout, Bitmap.Agrees, PoolLayout.HasFree,
         PoolLayout.Packed, PoolLayout.Fits, PoolLayout.Total, PoolLayout.Clear, SameShape, PoolLayout.NoFit,
         PoolLayout.FirstFitAt, FastStep, PoolLayout.AfterAlloc, PoolLayout.Grown, Worse, Pool.Placed, Pool.Valid, Ok,
         BitmapKept, Misfit;
    ghost var a0, s0 := to.live, to.slot.Keys;
    ValidOk(to);
    Disjoint(to, from);
    OkEntry(from, bFrom);
    ClearLength(from.T(), bFrom);
    var size := from.entries[bFrom].size;
    var r;
    ghost var t, full := to.T(), to.bitmapFull;
    ghost var m1, m2;
    r, m1, m2 := FastAlloc(to, size, emptyTo, memory);
    ok := r >= 0;
    if ok {
      ghost var t1, e := to.T(), to.slot[emptyTo];
      FastMigrate(to, from, bFrom, emptyTo.id, emptyTo, a0, s0, to.mem[..][r..r + size]);
      ShapeKeeps(t1, to.T());
      FastStepOk(t, t1, to.T(), to.poolSize, m1, e, Entry(r, size, emptyTo), m2);
      BitmapMoved(full, t, to.bitmapFull, t1, to.T(), to.poolSize, memory);
      OkValid(to);
    }
  }

  lemma BitmapMoved(full: bool, t: Table<Owner?>, full': bool, t1: Table<Owner?>, t': Table<Owner?>, n: int,
                    memory: bool)
    requires BitmapKept(full, t, full', t1, memory) && SameShape(t1, t') && FastStep(t, t', n)
    ensures BitmapKept(full, t, full', t', memory)
  {
    ShapeSum(t1, t');
  }

  lemma ValidOk(p: Pool)
    requires p.Valid()
    ensures Ok(p) && p.mem.Length == p.poolSize && p.live.Keys == p.slot.Keys
    ensures |p.used| == |p.entries| && Layout(p.T(), p.poolSize) && p.Flags()
  {
  }

  lemma OkValid(p: Pool)
    requires Ok(p) && p.Flags()
    ensures p.Valid()
  {
  }

  lemma OkEntry(p: Pool, i: nat)
    requires Ok(p) && i < |p.used| && p.used[i]
    ensures |p.used| == |p.entries| && p.entries[i].owner in p.slot && p.entries[i].owner in p.live
    ensures p.entries[i].owner != null && p.entries[i].owner.pool == p
    ensures 0 < p.entries[i].size && p.entries[i].size % ALIGN == 0 && |p.live[p.entries[i].owner]| == p.entries[i].size
  {
    OwnerOf(p.T(), p.slot, i);
    LiveBytes(p.T(), p.slot, p.live, p.mem[..], i, p.poolSize);
    HandlePool(p, p.entries[i].owner);
  }

  lemma ShapeKeeps(t: Table<Owner?>, t': Table<Owner?>)
    requires SameShape(t, t')
    ensures Total(t') == Total(t) && HasFree(t') == HasFree(t)
    ensures (exists k :: Packed(t, k)) ==> exists k :: Packed(t', k)
  {
    ShapeSum(t, t');
    if k :| Packed(t, k) { ShapePacked(t, t', k); }
  }

  lemma GrownKeeps(t: Table<Owner?>, n: int, more: seq<Entry<Owner?>>)
    requires Layout(t, n)
    ensures Worse(t, Grown(t, more), n) && |Grown(t, more).used| >= |t.used|
    ensures Count(Grown(t, more), |Grown(t, more).used|) == Count(t, |t.used|)
  {
    GrownSum(t, more, |t.used| + |more|);
    forall s | NoFit(t, n, s) ensures NoFit(Grown(t, more), n, s) {
      NoFitGrown(t, n, s, more);
    }
    assert more == [] ==> Grown(t, more) == t;
  }

  lemma WorseMore(t0: Table<Owner?>, t: Table<Owner?>, t': Table<Owner?>, n: int)
    requires Worse(t0, t, n)
    ensures Worse(t, t', n) || FastStep(t, t', n) ==> Worse(t0, t', n)
  {
  }

  lemma WorseSelf(t: Table<Owner?>, n: int)
    requires |t.used| == |t.entries|
    ensures Worse(t, t, n)
  {
  }

  /** What the fast transfer knows after slot `b`: entries are conserved, those it left behind are at
      least `failSize` long, and a request of that size fits nowhere in the target. */
  ghost predicate FastInv(t: Table<Owner?>, f: Table<Owner?>, n: int, b: int, failSize: int, refused: bool,
                          memory: bool, c0: int) {
    && |t.used| == |t.entries| && |f.used| == |f.entries|
    && Count(t, |t.used|) + Count(f, |f.used|) == c0
    && TooLargeUpTo(f, b, failSize - 1)
    && (failSize == MAX_ULONG || (!memory && refused) || Misfit(t, n, failSize, memory))
  }

  /** The bitmap has been asked to grow: it counts as full, or has grown beyond `u0` slots. */
  ghost predicate Cramped(to: Pool, u0: nat)
    reads to`bitmapFull, to`used
  {
    to.bitmapFull || |to.used| > u0
  }

  lemma FastInvMoved(t: Table<Owner?>, f: Table<Owner?>, t': Table<Owner?>, n: int, b0: int, b: nat, failSize: int,
                     refused: bool, refused': bool, memory: bool, c0: int)
    requires FastInv(t, f, n, b0, failSize, refused, memory, c0) && (refused ==> refused') && FastStep(t, t', n)
    requires !refused' ==> |t'.used| == |t.used|
    requires -1 <= b0 && b < |f.used| && IsNext(f.used, b0 + 1, true, b)
    ensures FastInv(t', Clear(f, b), n, b, failSize, refused', memory, c0)
  {
    SumClear(f, b, |f.used|);
    if failSize != MAX_ULONG && (memory || !refused') {
      assert if memory then NoFit(t', n, failSize) else NoSlot(t', n, failSize);
    }
  }

  lemma FastInvKept(t: Table<Owner?>, f: Table<Owner?>, t': Table<Owner?>, n: int, b0: int, b: nat, failSize: int,
                    refused: bool, refused': bool, memory: bool, c0: int)
    requires FastInv(t, f, n, b0, failSize, refused, memory, c0) && (refused ==> refused') && Worse(t, t', n)
    requires Count(t', |t'.used|) == Count(t, |t.used|)
    requires -1 <= b0 && b < |f.used| && IsNext(f.used, b0 + 1, true, b) && f.entries[b].size < failSize
    requires Misfit(t', n, f.entries[b].size, memory) || (!memory && refused')
    ensures FastInv(t', f, n, b, f.entries[b].size, refused', memory, c0)
  {
  }

  lemma FastInvSkipped(t: Table<Owner?>, f: Table<Owner?>, n: int, b0: int, b: nat, failSize: int, refused: bool,
                       memory: bool, c0: int)
    requires FastInv(t, f, n, b0, failSize, refused, memory, c0)
    requires -1 <= b0 && b < |f.used| && IsNext(f.used, b0 + 1, true, b) && f.entries[b].size >= failSize
    ensures FastInv(t, f, n, b, failSize, refused, memory, c0)
  {
  }

  /** One round of the fast transfer's loop, for an entry that is not skipped. */
  method FastTry(to: Pool, from: Pool, b0: int, bFrom: nat, failSize: int, emptyTo: Owner,
                 ghost st: Start, ghost bytes: int, ghost moved: set<Owner?>, ghost r0: nat, memory: bool,
                 ghost c0: int)
    returns (ok: bool, size: int, ghost moved': set<Owner?>)
    requires bFrom < |from.entries| == |from.used| && from.used[bFrom] && from.entries[bFrom].size < failSize
    requires -1 <= b0 && IsNext(from.used, b0 + 1, true, bFrom)
    requires emptyTo !in to.slot && emptyTo !in from.slot
    requires Pair(to, from) && to.Valid() && Ok(from) && Progress(st, Now(to, from), bytes, moved) && |to.used| >= r0
    requires FastInv(to.T(), from.T(), to.poolSize, b0, failSize, Cramped(to, r0), memory, c0)
    requires Worse(st.toTable, to.T(), to.poolSize) && (to.bitmapFull ==> !memory && LastUsed(to.T()))
    modifies from`words, from`used, from`slot, from`live, from`remain, to`words, to`used, to`entries, to`slot,
             to`live, to`remain, to`bitmapFull, to`fragmented, to.mem, from.slot.Keys, to.slot.Keys,
             emptyTo
    ensures to.Valid() && Ok(from) && to.fragmented == old(to.fragmented)
    ensures |from.used| == old(|from.used|) && |to.used| >= old(|to.used|)
    ensures size == old(from.entries[bFrom].size) > 0 && to.remain + from.remain == old(to.remain + from.remain)
    ensures from.slot.Keys + to.slot.Keys == old(from.slot.Keys + to.slot.Keys)
    ensures Progress(st, Now(to, from), bytes + if ok then size else 0, moved')
    ensures FastInv(to.T(), from.T(), to.poolSize, bFrom, if ok then failSize else size, Cramped(to, r0), memory, c0)
    ensures Worse(st.toTable, to.T(), to.poolSize) && (to.bitmapFull ==> !memory && LastUsed(to.T()))
    ensures ok && to.bitmapFull && !to.fragmented ==> !HasFree(to.T())
    ensures !old(to.fragmented) && !old(to.bitmapFull) && old(from.entries[bFrom].size) <= old(to.remain) ==> ok
  {
    hide PoolContents.Holds, PoolContents.Owned, PoolLayout.Layout, Bitmap.Agrees, PoolLayout.HasFree,
         PoolLayout.Packed, PoolLayout.Total, PoolLayout.Clear, PoolLayout.NoFit, FastStep, Worse, FastInv, Progress,
         Pool.Valid, Ok, Bitmap.IsNext;
    ghost var t, f, now := to.T(), from.T(), Now(to, from);
    ghost var o, refused := from.entries[bFrom].owner, Cramped(to, r0);
    ValidOk(to);
    OkKeys(from);
    size := from.entries[bFrom].size;
    ok := FastOne(to, from, bFrom, emptyTo, memory);
    moved' := moved;
    WorseMore(st.toTable, t, to.T(), to.poolSize);
    if ok {
      ProgressOne(st, now, Now(to, from), bytes, moved, o, size);
      moved' := moved + {o};
      FastInvMoved(t, f, to.T(), to.poolSize, b0, bFrom, failSize, refused, Cramped(to, r0), memory, c0);
    } else {
      ProgressStays(st, now, Now(to, from), bytes, moved);
      FastInvKept(t, f, to.T(), to.poolSize, b0, bFrom, failSize, refused, Cramped(to, r0), memory, c0);
    }
  }

  lemma OkKeys(p: Pool)
    requires Ok(p)
    ensures p.live.Keys == p.slot.Keys && |p.used| == |p.entries|
  {
  }

  /** The state of the fast transfer's loop. `spare` says that the target started packed, with room
      for everything the source holds. */
  ghost predicate FastState(to: Pool, from: Pool, emptyTo: Owner, st: Start, bytes: int, moved: set<Owner?>, b: int,
                            failSize: int, r0: nat, memory: bool, c0: int, spare: bool)
    reads to, to.mem, to.slot.Keys, from, from.mem, from.slot.Keys
  {
    && to.Valid() && Ok(from) && Pair(to, from) && -1 <= b
    && emptyTo !in to.slot && emptyTo !in from.slot
    && Progress(st, Now(to, from), bytes, moved) && |to.used| >= r0 && Worse(st.toTable, to.T(), to.poolSize)
    && (to.bitmapFull ==> !memory && LastUsed(to.T()))
    && FastInv(to.T(), from.T(), to.poolSize, b, failSize, Cramped(to, r0), memory, c0)
    && (spare ==> !to.fragmented && to.remain >= from.poolSize - from.remain && failSize == MAX_ULONG)
  }

  /** One round: skip the entry, move it, or learn that its size does not fit. */
  method FastVisit(to: Pool, from: Pool, b0: int, bFrom: nat, failSize: int, emptyTo: Owner,
                   ghost st: Start, bytes: int, ghost moved: set<Owner?>, ghost r0: nat, memory: bool, ghost c0: int,
                   ghost spare: bool)
    returns (bytes': int, ghost moved': set<Owner?>, failSize': int, stop: bool)
    requires FastState(to, from, emptyTo, st, bytes, moved, b0, failSize, r0, memory, c0, spare)
    requires spare ==> !to.Full()
    requires IsNext(from.used, b0 + 1, true, bFrom) && bFrom < |from.used| == |from.entries| && from.used[bFrom]
    modifies from`words, from`used, from`slot, from`live, from`remain, to`words, to`used, to`entries, to`slot,
             to`live, to`remain, to`bitmapFull, to`fragmented, to.mem, from.slot.Keys, to.slot.Keys,
             emptyTo
    ensures FastState(to, from, emptyTo, st, bytes', moved', bFrom, failSize', r0, memory, c0, spare)
    ensures to.fragmented == old(to.fragmented) && |from.used| == old(|from.used|) && |to.used| >= old(|to.used|)
    ensures from.slot.Keys + to.slot.Keys == old(from.slot.Keys + to.slot.Keys)
    ensures stop ==> to.Full() && (spare && to.remain > 0 ==> !HasFree(to.T()))
    ensures spare && !stop ==> !to.Full()
  {
    hide PoolContents.Holds, PoolContents.Owned, PoolLayout.Layout, Bitmap.Agrees, PoolLayout.HasFree,
         PoolLayout.Packed, PoolLayout.Total, PoolLayout.NoFit, FastInv, Progress, Pool.Valid, Ok, Bitmap.IsNext, Worse;
    bytes', moved', failSize', stop := bytes, moved, failSize, false;
    var size := from.entries[bFrom].size;
    EntryWithin(from, bFrom);
    assert emptyTo !in from.slot.Keys + to.slot.Keys;
    if size >= failSize {
      FastInvSkipped(to.T(), from.T(), to.poolSize, b0, bFrom, failSize, Cramped(to, r0), memory, c0);
    } else {
      var ok;
      ok, size, moved' := FastTry(to, from, b0, bFrom, failSize, emptyTo, st, bytes, moved, r0, memory, c0);
      if ok {
        bytes' := bytes + size;
        stop := to.Full();
      } else {
        failSize' := size;
      }
    }
    assert emptyTo !in from.slot.Keys + to.slot.Keys;
  }

  /** The loop of `mem_pool_transfer_entries_fast`. */
  method FastLoop(to: Pool, from: Pool, memory: bool, ghost st: Start, ghost c0: int, ghost spare: bool)
    returns (bytes: int, ghost moved: set<Owner?>, failSize: int)
    requires Pair(to, from) && to.Valid() && Ok(from) && !to.Full() && st == Now(to, from)
    requires c0 == Count(to.T(), |to.used|) + Count(from.T(), |from.used|)
    requires spare <==> !to.fragmented && to.remain >= from.poolSize - from.remain
    modifies from`words, from`used, from`slot, from`live, from`remain, to`words, to`used, to`entries, to`slot,
             to`live, to`remain, to`bitmapFull, to`fragmented, to.mem, from.slot.Keys, to.slot.Keys
    ensures to.Valid() && Ok(from) && Progress(st, Now(to, from), bytes, moved)
    ensures to.fragmented == old(to.fragmented)
    ensures |from.used| == old(|from.used|) && |to.used| >= old(|to.used|)
    ensures Worse(st.toTable, to.T(), to.poolSize) && (to.bitmapFull ==> !memory && LastUsed(to.T()))
    ensures to.Full() ||
              FastInv(to.T(), from.T(), to.poolSize, |from.used|, failSize, Cramped(to, old(|to.used|)), memory, c0)
    ensures Count(to.T(), |to.used|) + Count(from.T(), |from.used|) == c0
    ensures spare ==> to.remain >= from.poolSize - from.remain
    ensures spare && to.Full() && to.remain > 0 ==> !HasFree(to.T())
    ensures spare ==> to.Full() || failSize == MAX_ULONG
  {
    hide FastInv, Progress, FastState, Bitmap.IsNext, Pair, PoolLayout.HasFree, Worse, Ok, Pool.Valid, PoolLayout.Count,
         Pool.Full;
    ghost var r0 := |to.used|;
    var emptyTo := new Owner();
    var bFrom, stop := -1, false;
    bytes, moved, failSize := 0, {}, MAX_ULONG;
    FastStart(to, from, emptyTo, st, r0, memory, c0, spare);
    while true
      invariant FastState(to, from, emptyTo, st, bytes, moved, bFrom, failSize, r0, memory, c0, spare) && -1 <= bFrom
      invariant |from.used| == old(|from.used|) && |to.used| >= old(|to.used|) && (spare ==> !to.Full())
      invariant from.slot.Keys + to.slot.Keys == old(from.slot.Keys + to.slot.Keys) && fresh(emptyTo)
      invariant to.fragmented == old(to.fragmented)
      decreases |from.used| - bFrom
    {
      var b0 := bFrom;
      bFrom := NextEntry(from, to, b0, emptyTo, st, bytes, moved, failSize, r0, memory, c0, spare);
      if bFrom == -1 {
        FastDone(to, from, emptyTo, st, bytes, moved, b0, failSize, r0, memory, c0, spare);
        FastEnd(to, from, emptyTo, st, bytes, moved, b0, failSize, r0, memory, c0, spare);
        return;
      }
      bytes, moved, failSize, stop :=
        FastVisit(to, from, b0, bFrom, failSize, emptyTo, st, bytes, moved, r0, memory, c0, spare);
      if stop {
        FastDone(to, from, emptyTo, st, bytes, moved, bFrom, failSize, r0, memory, c0, spare);
        return;
      }
    }
  }

  lemma FastStart(to: Pool, from: Pool, emptyTo: Owner, st: Start, r0: nat, memory: bool, c0: int, spare: bool)
    requires Pair(to, from) && to.Valid() && Ok(from) && st == Now(to, from) && r0 == |to.used|
    requires c0 == Count(to.T(), |to.used|) + Count(from.T(), |from.used|)
    requires spare <==> !to.fragmented && to.remain >= from.poolSize - from.remain
    requires emptyTo !in to.slot && emptyTo !in from.slot && !to.Full()
    ensures FastState(to, from, emptyTo, st, 0, {}, -1, MAX_ULONG, r0, memory, c0, spare)
  {
    hide PoolContents.Holds, PoolContents.Owned, PoolLayout.Layout, Bitmap.Agrees, FastInv, Worse;
    WorseSelf(to.T(), to.poolSize);
    ProgressNone(st);
    FastInvStart(to, from, memory, c0);
  }

  lemma FastDone(to: Pool, from: Pool, emptyTo: Owner, st: Start, bytes: int, moved: set<Owner?>, b: int, failSize: int,
                 r0: nat, memory: bool, c0: int, spare: bool)
    requires FastState(to, from, emptyTo, st, bytes, moved, b, failSize, r0, memory, c0, spare)
    ensures to.Valid() && Ok(from) && Progress(st, Now(to, from), bytes, moved) && |to.used| >= r0
    ensures Worse(st.toTable, to.T(), to.poolSize) && (to.bitmapFull ==> !memory && LastUsed(to.T()))
    ensures Count(to.T(), |to.used|) + Count(from.T(), |from.used|) == c0
    ensures spare ==> to.remain >= from.poolSize - from.remain && failSize == MAX_ULONG
  {
    hide PoolContents.Holds, PoolContents.Owned, PoolLayout.Layout, Bitmap.Agrees;
  }

  lemma FastEnd(to: Pool, from: Pool, emptyTo: Owner, st: Start, bytes: int, moved: set<Owner?>, b: int, failSize: int,
                r0: nat, memory: bool, c0: int, spare: bool)
    requires FastState(to, from, emptyTo, st, bytes, moved, b, failSize, r0, memory, c0, spare)
    requires IsNext(from.used, b + 1, true, -1)
    ensures FastInv(to.T(), from.T(), to.poolSize, |from.used|, failSize, Cramped(to, r0), memory, c0)
  {
    hide PoolContents.Holds, PoolContents.Owned, PoolLayout.Layout, Bitmap.Agrees, FastInv, Bitmap.IsNext;
    FastInvEnd(to.T(), from.T(), to.poolSize, b, failSize, Cramped(to, r0), memory, c0);
  }

  lemma FastInvStart(to: Pool, from: Pool, memory: bool, c0: int)
    requires to.Valid() && Ok(from) && c0 == Count(to.T(), |to.used|) + Count(from.T(), |from.used|)
    ensures FastInv(to.T(), from.T(), to.poolSize, -1, MAX_ULONG, false, memory, c0)
  {
  }

  lemma FastInvEnd(t: Table<Owner?>, f: Table<Owner?>, n: int, b: int, failSize: int, refused: bool, memory: bool,
                   c0: int)
    requires FastInv(t, f, n, b, failSize, refused, memory, c0) && -1 <= b && IsNext(f.used, b + 1, true, -1)
    ensures FastInv(t, f, n, |f.used|, failSize, refused, memory, c0) && Count(t, |t.used|) + Count(f, |f.used|) == c0
  {
  }

  method NextEntry(p: Pool, ghost to: Pool, b: int, ghost emptyTo: Owner, ghost st: Start, ghost bytes: int,
                   ghost moved: set<Owner?>, ghost failSize: int, ghost r0: nat, memory: bool, ghost c0: int,
                   ghost spare: bool)
    returns (r: int)
    requires FastState(to, p, emptyTo, st, bytes, moved, b, failSize, r0, memory, c0, spare)
    ensures IsNext(p.used, b + 1, true, r)
    ensures r == -1 || (b < r < |p.used| == |p.entries| && p.used[r])
  {
    hide PoolContents.Holds, PoolContents.Owned, PoolLayout.Layout, Bitmap.Agrees, FastInv, Progress;
    r := NextUsed(p.words, p.used, b + 1);
  }

  lemma EntryWithin(p: Pool, i: nat)
    requires Ok(p) && i < |p.used| && p.used[i]
    ensures |p.used| == |p.entries| && p.entries[i].size <= p.poolSize - p.remain
  {
    EntryInTotal(p.T(), p.poolSize, i, |p.used|);
  }

  /** None of these allocations fits a gap of the table. */
  ghost predicate NothingFits(t: Table<Owner?>, n: int, live: map<Owner?, seq<byte>>, memory: bool)
  {
    |t.used| == |t.entries| && forall o {:trigger live[o]} :: o in live ==> Misfit(t, n, |live[o]|, memory)
  }

  /** The entries left behind by the fast form fit nowhere in the target. */
  lemma FastLeftBehind(to: Pool, from: Pool, failSize: int, refused: bool, memory: bool, c0: int)
    requires Ok(to) && Ok(from) && FastInv(to.T(), from.T(), to.poolSize, |from.used|, failSize, refused, memory, c0)
    requires memory || !refused
    ensures NothingFits(to.T(), to.poolSize, from.live, memory)
  {
    hide PoolContents.Holds, PoolContents.Owned, PoolLayout.Layout, Bitmap.Agrees, PoolLayout.NoFit,
         PoolLayout.TriedUpTo;
    LeftBehind(from, failSize - 1);
    forall o | o in from.live ensures Misfit(to.T(), to.poolSize, |from.live[o]|, memory) {
      assert |from.live[o]| > failSize - 1;
      SizeBelowMax(from, o);
      FitsTried(to.T(), to.poolSize, failSize);
      FitsTried(to.T(), to.poolSize, |from.live[o]|);
      TriedMonotone(to.T(), to.poolSize, failSize, |from.live[o]|, if memory then |to.used| else |to.used| - 1);
    }
  }

  lemma SizeBelowMax(p: Pool, o: Owner?)
    requires Ok(p) && o in p.live
    ensures |p.live[o]| <= p.poolSize < MAX_ULONG
  {
    OwnedBy(p.T(), p.slot, o);
    LiveBytes(p.T(), p.slot, p.live, p.mem[..], p.slot[o], p.poolSize);
  }

  ghost function FilledSlots(p: Pool): (r: int)
    reads p`used, p`entries
  {
    Count(p.T(), |p.used|)
  }

  ghost function FreeSlots(p: Pool): (r: int)
    reads p`used, p`entries
  {
    |p.used| - FilledSlots(p)
  }

  /** What is left of the room in a target after it has received everything: it stays packed, and is
      full only once its bytes or its slots are used up. */
  ghost predicate RoomLeft(to: Pool, slots: int)
    reads to`used, to`entries, to`remain, to`bitmapFull, to`fragmented
  {
    !to.fragmented && FreeSlots(to) >= slots && (to.Full() && to.remain > 0 ==> FreeSlots(to) == 0)
  }

  lemma SizeAtLeast(p: Pool, o: Owner?)
    requires Ok(p) && o in p.live
    ensures |p.live[o]| >= ALIGN
  {
    hide PoolContents.Holds, PoolContents.Owned, PoolLayout.Layout, Bitmap.Agrees;
    OkKeys(p);
    OwnedBy(p.T(), p.slot, o);
    LiveBytes(p.T(), p.slot, p.live, p.mem[..], p.slot[o], p.poolSize);
  }

  /** A target with room for everything, in bytes and in slots, receives everything. */
  lemma FastMovesAll(to: Pool, from: Pool, failSize: int, c0: int, n: nat)
    requires !to.fragmented && n <= |to.used| && Ok(to) && Ok(from)
    requires Count(to.T(), |to.used|) + Count(from.T(), |from.used|) == c0
    requires to.remain >= from.poolSize - from.remain && c0 <= n
    requires to.Full() && to.remain > 0 ==> !HasFree(to.T())
    requires to.Full() || (failSize == MAX_ULONG && TooLargeUpTo(from.T(), |from.used|, failSize - 1))
    ensures from.Empty() && RoomLeft(to, n - c0)
  {
    hide PoolContents.Holds, PoolContents.Owned, Bitmap.Agrees, PoolLayout.HasFree;
    TotalBounds(from.T(), from.poolSize, |from.used|);
    if to.Full() {
      if to.remain > 0 { FreeIsCounted(to.T()); }
    } else {
      forall i | 0 <= i < |from.used| ensures !from.used[i] {
        if from.used[i] { OkEntry(from, i); EntryWithin(from, i); }
      }
    }
  }

  /** The target is packed and has, in bytes and in slots, room for everything in the source. */
  ghost predicate RoomForAll(to: Pool, from: Pool)
    reads to`used, to`entries, to`remain, to`bitmapFull, to`fragmented, from`used, from`entries, from`remain
  {
    && !to.Full() && !to.fragmented && to.remain >= from.poolSize - from.remain
    && FilledSlots(from) <= FreeSlots(to)
  }

  lemma FastInvLarge(t: Table<Owner?>, f: Table<Owner?>, n: int, b: int, failSize: int, refused: bool, memory: bool,
                     c0: int)
    requires FastInv(t, f, n, b, failSize, refused, memory, c0)
    ensures TooLargeUpTo(f, b, failSize - 1)
  {
  }

  /** What the loop has achieved once it is over. */
  lemma FastResult(to: Pool, from: Pool, failSize: int, refused: bool, memory: bool, c0: int, n: nat, spare: bool)
    requires to.Valid() && Ok(from) && Count(to.T(), |to.used|) + Count(from.T(), |from.used|) == c0 && n <= |to.used|
    requires to.Full() || FastInv(to.T(), from.T(), to.poolSize, |from.used|, failSize, refused, memory, c0)
    requires spare ==> !to.fragmented && to.remain >= from.poolSize - from.remain
    requires spare && to.Full() && to.remain > 0 ==> !HasFree(to.T())
    requires spare ==> to.Full() || failSize == MAX_ULONG
    ensures to.Full() || (!memory && refused) || NothingFits(to.T(), to.poolSize, from.live, memory)
    ensures spare && c0 <= n ==> from.Empty() && RoomLeft(to, n - c0)
  {
    hide PoolContents.Holds, PoolContents.Owned, PoolLayout.Layout, Bitmap.Agrees, PoolLayout.Packed,
         PoolLayout.HasFree, TooLargeUpTo, PoolLayout.Total, PoolLayout.NoFit, FastInv, Ok, RoomLeft;
    ValidOk(to);
    if !to.Full() {
      FastInvLarge(to.T(), from.T(), to.poolSize, |from.used|, failSize, refused, memory, c0);
      if memory || !refused { FastLeftBehind(to, from, failSize, refused, memory, c0); }
    }
    if spare && c0 <= n { FastMovesAll(to, from, failSize, c0, n); }
  }

  /** `mem_pool_transfer_entries_fast`: first-fit without defragmentation. Every handle and byte
      arrives or stays; an entry left behind fits in no gap of the target, unless the target filled up
      or its bitmap could not be grown. A target that is packed, with as much free space as the source
      holds and as many free slots as the source has, receives everything, even when its bitmap can
      never be grown. */
  method TransferEntriesFast(to: Pool, from: Pool, memory: bool) returns (bytes: int, ghost moved: set<Owner?>)
    requires to.Valid() && from.Valid() && to.Mapped() && from.Mapped() && (to != from ==> MappedApart(to, from))
    modifies to`words, to`used, to`entries, to`slot, to`live, to`remain, to`bitmapFull, to`fragmented,
             to.mem, from`words, from`used, from`slot, from`live, from`remain, from`bitmapFull, from`fragmented,
             from.slot.Keys, to.slot.Keys
    ensures to.Valid() && from.Valid()
    ensures to == from ==>
              bytes == 0 && to.live == old(to.live) && to.slot == old(to.slot) && to.remain == old(to.remain)
    ensures to != from ==> Progress(old(Now(to, from)), Now(to, from), bytes, moved)
    ensures to != from && !old(to.Full()) ==>
              && (to.bitmapFull ==> !memory && LastUsed(to.T()))
              && (to.Full() || (!memory && |to.used| > old(|to.used|)) ||
                  NothingFits(to.T(), to.poolSize, from.live, memory))
    ensures to != from ==> Worse(old(to.T()), to.T(), to.poolSize)
    ensures Shut(to.bitmapFull, to.T(), old(to.bitmapFull), old(to.T()), memory)
    ensures Shut(from.bitmapFull, from.T(), old(from.bitmapFull), old(from.T()), memory)
    ensures to != from && old(RoomForAll(to, from)) ==>
              from.Empty() && RoomLeft(to, old(FreeSlots(to) - FilledSlots(from)))
    ensures to != from && old(to.Full()) ==> to.Full() && to.T() == old(to.T())
    ensures to != from ==>
              if bytes > 0 then from.fragmented <==> !from.Empty() else from.fragmented == old(from.fragmented)
  {
    hide PoolContents.Holds, PoolContents.Owned, PoolLayout.Layout, Bitmap.Agrees, PoolLayout.Packed,
         PoolLayout.HasFree, TooLargeUpTo, PoolLayout.Total, PoolLayout.NoFit, FastInv, Ok, Carried, RoomLeft, Worse,
         NothingFits, Pool.Valid;
    bytes, moved := 0, {};
    ProgressNone(Now(to, from));
    ValidOk(from);
    ValidOk(to);
    WorseSelf(to.T(), to.poolSize);
    if to.Full() || to == from {
      return;
    }
    ghost var c0 := Count(to.T(), |to.used|) + Count(from.T(), |from.used|);
    ghost var r0 := |to.used|;
    ghost var spare := !to.fragmented && to.remain >= from.poolSize - from.remain;
    ghost var n := |to.used|;
    var failSize;
    bytes, moved, failSize := FastLoop(to, from, memory, Now(to, from), c0, spare);
    FastResult(to, from, failSize, Cramped(to, r0), memory, c0, n, spare);
    if bytes > 0 {
      SettleSource(from);
    } else {
      OkValid(from);
    }
  }
}
