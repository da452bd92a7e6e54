/** Whole runs over the pools: whatever the policy merges, drains, shrinks or destroys in between, the
    owners of the allocations see nothing but their own requests. */
module PoolSession {
  import opened Lists
  import opened VfpCopy
  import opened PoolLayout
  import opened MemPool
  import opened PoolTransfer
  import opened PoolPolicy

  datatype Op =
    | Get(bytes: nat, owner: Owner, blockcnt: nat, clock: Clock, kernel: Kernel)
    | Put(owner: Owner)
    | Write(owner: Owner, at: nat, value: byte)
    | Compact(kernel: Kernel, end: int)
    | GetFrom(pool: nat, bytes: nat, owner: Owner, defrag: bool, memory: bool)
    | Defragment(pool: nat)
    | Move(to: nat, from: nat, fast: bool, memory: bool)

  /** `o` has become the handle of `n` bytes, rounded up to whole cache lines. */
  ghost predicate Obtained(a: Live, b: Live, n: nat, o: Owner) {
    o !in a && 0 < n && o in b && b == a[o := b[o]] && |b[o]| == (n + 127) / 128 * 128
  }

  /** A small pool serves the size. */
  predicate Small(n: nat) {
    0 < n && (n + 127) / 128 * 128 <= 96 * 1024
  }

  /** What one request may do to the contents of all live allocations. One that the small pools serve is
      never turned down while a buffer can be had. */
  ghost predicate Step(op: Op, a: Live, b: Live) {
    match op
    case Get(n, o, _, _, k) =>
      if o in a || !Small(n) then b == a else Obtained(a, b, n, o) || (b == a && !k.buffers)
    case Put(o) => b == a - {o}
    case Write(o, k, v) => b == if o in a && k < |a[o]| then a[o := a[o][k := v]] else a
    case GetFrom(_, n, o, _, _) => b == a || Obtained(a, b, n, o)
    case _ => b == a
  }

  ghost predicate Trace(ops: seq<Op>, states: seq<Live>) {
    |states| == |ops| + 1 && forall i {:trigger ops[i]} :: 0 <= i < |ops| ==> Step(ops[i], states[i], states[i + 1])
  }

  /** An allocation that no request names keeps every byte over the whole run. */
  lemma {:induction false} UntouchedForever(ops: seq<Op>, states: seq<Live>, o: Owner)
    requires Trace(ops, states) && o in states[0]
    requires forall op {:trigger op in ops} :: op in ops ==> (op.Put? || op.Write? ==> op.owner != o)
    ensures o in states[|ops|] && states[|ops|][o] == states[0][o]
  {
    if ops != [] {
      assert ops[0] in ops && Step(ops[0], states[0], states[1]);
      forall i | 0 <= i < |ops[1..]| ensures Step(ops[1..][i], states[1..][i], states[1..][i + 1]) {
        assert Step(ops[i + 1], states[i + 1], states[i + 2]);
      }
      assert forall op {:trigger op in ops[1..]} :: op in ops[1..] ==> op in ops;
      UntouchedForever(ops[1..], states[1..], o);
    }
  }

  /** What was written last is what is read, if the byte is not written again and the allocation lives on. */
  lemma {:induction false} LastWriteReads(ops: seq<Op>, states: seq<Live>, o: Owner, k: nat)
    requires Trace(ops, states) && o in states[0] && k < |states[0][o]|
    requires forall op {:trigger op in ops} :: op in ops ==> op != Put(o) && !(op.Write? && op.owner == o && op.at == k)
    ensures o in states[|ops|] && |states[|ops|][o]| == |states[0][o]| && states[|ops|][o][k] == states[0][o][k]
  {
    if ops != [] {
      assert ops[0] in ops && Step(ops[0], states[0], states[1]);
      forall i | 0 <= i < |ops[1..]| ensures Step(ops[1..][i], states[1..][i], states[1..][i + 1]) {
        assert Step(ops[i + 1], states[i + 1], states[i + 2]);
      }
      assert forall op {:trigger op in ops[1..]} :: op in ops[1..] ==> op in ops;
      LastWriteReads(ops[1..], states[1..], o, k);
    }
  }

  /** Requests of a moment in which the batch of 3D jobs is waiting, or that never compact */
  predicate Gentle(op: Op) {
    (op.Get? && op.blockcnt > 0) || op.Put? || op.Write?
  }

  /** Every handle but `o` leads where it led. */
  ghost predicate OthersPlaced(w: Places, w': Places, o: Owner) {
    forall p, x {:trigger x in w[p]} :: p in w && x in w[p] && x != o ==> p in w' && x in w'[p] && w'[p][x] == w[p][x]
  }

  lemma UndisturbedPlaces(w: Places, w': Places, o: Owner)
    requires Undisturbed(w, w')
    ensures OthersPlaced(w, w', o)
  {
    forall p, x | p in w && x in w[p] ensures p in w' && x in w'[p] && w'[p][x] == w[p][x] {
      assert Stay(w[p], w'[p]);
    }
  }

  ghost predicate PlaceTrace(ops: seq<Op>, places: seq<Places>) {
    && |places| == |ops| + 1
    && forall i {:trigger ops[i]} ::
      0 <= i < |ops| && Gentle(ops[i]) ==> OthersPlaced(places[i], places[i + 1], ops[i].owner)
  }

  /** While the batch of 3D jobs waits, an allocation stays where its jobs expect it, unless its owner
      gives it back. */
  lemma {:induction false} BatchKeepsPlaces(ops: seq<Op>, places: seq<Places>, p: Pool, o: Owner)
    requires PlaceTrace(ops, places) && p in places[0] && o in places[0][p]
    requires forall op {:trigger op in ops} :: op in ops ==> Gentle(op) && op.owner != o
    ensures p in places[|ops|] && o in places[|ops|][p] && places[|ops|][p][o] == places[0][p][o]
  {
    if ops != [] {
      assert ops[0] in ops && OthersPlaced(places[0], places[1], ops[0].owner);
      forall i | 0 <= i < |ops[1..]| && Gentle(ops[1..][i])
        ensures OthersPlaced(places[1..][i], places[1..][i + 1], ops[1..][i].owner)
      {
        assert OthersPlaced(places[i + 1], places[i + 2], ops[i + 1].owner);
      }
      assert forall op {:trigger op in ops[1..]} :: op in ops[1..] ==> op in ops;
      BatchKeepsPlaces(ops[1..], places[1..], p, o);
    }
  }

  method WriteOk(owner: Owner, k: nat, v: byte)
    requires owner.pool != null && PoolOk(owner.pool) && owner in owner.pool.live && k < |owner.pool.live[owner]|
    modifies owner.pool.mem, owner.pool`live
    ensures PoolOk(owner.pool)
    ensures owner.pool.live == old(owner.pool.live)[owner := old(owner.pool.live[owner])[k := v]]
  {
    hide Pool.Valid;
    OkLiveKeys(owner.pool);
    WriteByte(owner, k, v);
  }

  method WriteIn(owner: Owner, k: nat, v: byte, ghost s: set<Pool>, ghost all: Live, ghost r: set<object?>)
    requires s <= r && Good(s, all, r) && owner in all && k < |all[owner]| && owner.pool != null && owner.pool in s
    modifies owner.pool.mem, owner.pool`live
    ensures Good(s, all[owner := all[owner][k := v]], r)
  {
    hide PoolOk, Tie;
    HolderIs(s, all, r, owner);
    var p := owner.pool;
    assert PoolOk(p);
    WriteOk(owner, k, v);
    forall q | q in s && q != p ensures PoolOk(q) && q.live == old(q.live) && owner !in q.live {
      assert old(PoolOk(q) && Separate(q, p));
      OkLiveKeys(q);
    }
    forall x, y | x in s && y in s && x != y ensures Separate(x, y) {
      assert old(Separate(x, y));
    }
    TieWrite(all, old(LivesOf(s)), LivesOf(s), p, owner, p.live[owner]);
  }

  lemma TieWrite(all: Live, lives: map<Pool, Live>, lives': map<Pool, Live>, p: Pool, o: Owner?, b: seq<byte>)
    requires Tie(all, lives) && p in lives && o in lives[p] && p in lives' && lives'.Keys == lives.Keys
    requires lives'[p] == lives[p][o := b]
    requires forall q {:trigger lives'[q]} :: q in lives && q != p ==> lives'[q] == lives[q] && o !in lives[q]
    ensures Tie(all[o := b], lives')
  {
    forall x | x in lives'[p] ensures x in all[o := b] && all[o := b][x] == lives'[p][x] {
      assert x in lives[p];
    }
    forall q, x | q in lives && q != p && x in lives[q] ensures x in all[o := b] && all[o := b][x] == lives[q][x] {
      assert lives'[q] == lives[q];
    }
    TieChange(all, lives, all[o := b], lives', p);
  }

  lemma WriteFacts(exa: Exa, owner: Owner)
    requires exa.Valid() && owner in exa.all
    ensures Set(exa.pools) + {} <= exa.Repr && exa !in exa.Repr && Good(Set(exa.pools) + {}, exa.all, exa.Repr)
    ensures owner.pool != null && owner.pool in Set(exa.pools) + {}
    ensures owner.pool in exa.Repr && owner.pool.mem in exa.Repr
    ensures Distinct(exa.pools)
  {
    hide Good;
    HolderIs(Set(exa.pools) + {}, exa.all, exa.Repr, owner);
    Footprint(owner.pool, Set(exa.pools) + {}, exa.all, exa.Repr);
  }

  lemma GoodIsValid(exa: Exa)
    requires Set(exa.pools) + {} <= exa.Repr && exa !in exa.Repr && Good(Set(exa.pools) + {}, exa.all, exa.Repr)
    requires Distinct(exa.pools)
    ensures exa.Valid()
  {
    hide Good;
  }

  method WriteAt(exa: Exa, owner: Owner, k: nat, v: byte)
    requires exa.Valid() && owner in exa.all && k < |exa.all[owner]|
    modifies exa`all, exa.Repr
    ensures exa.Valid() && exa.Repr == old(exa.Repr) && exa.all == old(exa.all)[owner := old(exa.all[owner])[k := v]]
    ensures Where(exa) == old(Where(exa)) && (old(exa.NoneEmpty()) ==> exa.NoneEmpty())
  {
    hide Good, Exa.ValidWith, Pool.Offsets;
    WriteFacts(exa, owner);
    WriteIn(owner, k, v, Set(exa.pools) + {}, exa.all, exa.Repr);
    exa.all := exa.all[owner := exa.all[owner][k := v]];
    GoodIsValid(exa);
  }

  method DefragOk(p: Pool)
    requires PoolOk(p) && p.Mapped()
    modifies p`words, p`used, p`entries, p`slot, p`fragmented, p.mem, p.slot.Keys
    ensures PoolOk(p) && p.slot.Keys == old(p.slot.Keys) && p.live == old(p.live)
    ensures exists k :: Packed(p.T(), k)
  {
    hide Pool.Valid, PoolLayout.Packed;
    MemPool.Defrag(p);
  }

  method DefragIn(p: Pool, ghost s: set<Pool>, ghost all: Live, ghost r: set<object?>)
    requires s <= r && p in s && Good(s, all, r) && p.Mapped()
    modifies p`words, p`used, p`entries, p`slot, p`fragmented, p.mem, p.slot.Keys
    ensures Good(s, all, r) && exists k :: Packed(p.T(), k)
  {
    hide PoolOk, Tie, PoolLayout.Packed;
    assert PoolOk(p);
    DefragOk(p);
    forall q | q in s && q != p ensures PoolOk(q) && q.slot == old(q.slot) && q.live == old(q.live) {
      assert old(PoolOk(q) && Separate(q, p));
    }
    forall x, y | x in s && y in s && x != y ensures Separate(x, y) {
      assert old(Separate(x, y));
    }
    assert LivesOf(s) == old(LivesOf(s));
  }

  /** `mem_pool_defrag` of a pool in the list, mapped for the purpose */
  method DefragAt(exa: Exa, i: nat)
    requires exa.Valid() && i < |exa.pools|
    modifies exa.Repr
    ensures exa.Valid() && exa.all == old(exa.all) && exa.Repr == old(exa.Repr) && exa.pools == old(exa.pools)
    ensures old(exa.NoneEmpty()) ==> exa.NoneEmpty()
    ensures exists k :: Packed(exa.pools[i].T(), k)
  {
    hide Good, PoolLayout.Packed;
    var p := exa.pools[i];
    Footprint(p, Set(exa.pools) + {}, exa.all, exa.Repr);
    MapPool(p, Set(exa.pools) + {}, exa.all, exa.Repr);
    DefragIn(p, Set(exa.pools) + {}, exa.all, exa.Repr);
    ghost var k :| Packed(p.T(), k);
    UnmapPool(p, Set(exa.pools) + {}, exa.all, exa.Repr);
    assert Packed(p.T(), k);
  }

  /** A transfer in either form between two pools of the list; the source is destroyed if that empties it. */
  method MoveAt(exa: Exa, i: nat, j: nat, fast: bool, memory: bool)
    requires exa.Valid() && i < |exa.pools| && j < |exa.pools| && i != j
    modifies exa`pools, exa.Repr
    ensures exa.Valid() && exa.all == old(exa.all) && exa.Repr == old(exa.Repr)
    ensures exa.pools == if old(exa.pools[j]).Empty() then Drop(old(exa.pools), j) else old(exa.pools)
    ensures var to, from := old(exa.pools[i]), old(exa.pools[j]);
            && to.remain + from.remain == old(exa.pools[i].remain) + old(exa.pools[j].remain)
            && Settles(to, from, fast, memory, old(|exa.pools[i].used|))
    ensures old(exa.NoneEmpty()) ==> exa.NoneEmpty()
  {
    hide Good, RoomForAll, Emptied, Stuck, Within, Pool.Valid, PoolPolicy.Blocked, NoRoomier;
    var to, from := exa.pools[i], exa.pools[j];
    Footprint(to, Set(exa.pools) + {}, exa.all, exa.Repr);
    Footprint(from, Set(exa.pools) + {}, exa.all, exa.Repr);
    UsedSpace(to);
    var _ := MoveEntries(to, from, fast, memory, Set(exa.pools) + {}, exa.all, exa.Repr);
    if from.Empty() {
      Destroy(exa, j, {});
      assert from !in Set(exa.pools);
    }
    if old(exa.NoneEmpty()) {
      forall q | q in exa.pools ensures !q.Empty() {
        assert q in Set(exa.pools) && (q != to && q != from ==> q.remain == old(q.remain));
      }
    }
  }

  /** What the owners know: who holds how many bytes. */
  ghost predicate Knows(held: map<Owner?, nat>, all: Live) {
    held.Keys == all.Keys && forall o {:trigger held[o]} :: o in held ==> held[o] == |all[o]|
  }

  /** The handle that a request for memory brings along */
  function Asking(op: Op): (r: set<Owner>) {
    if op.Get? || op.GetFrom? then {op.owner} else {}
  }

  /** Freeing an allocation moves no other. */
  method PutBack(exa: Exa, o: Owner)
    requires exa.Valid() && o in exa.all
    modifies exa, exa.Repr
    ensures exa.Valid() && exa.all == old(exa.all) - {o} && exa.Repr == old(exa.Repr)
    ensures OthersPlaced(old(Where(exa)), Where(exa), o) && (old(exa.NoneEmpty()) ==> exa.NoneEmpty())
  {
    hide Good, Exa.ValidWith, Pool.Offsets, Exa.NoneEmpty;
    ghost var pool, w := o.pool, Where(exa);
    FreeEntry(exa, o);
    forall p, x | p in w && x in w[p] && x != o
      ensures p in Where(exa) && x in Where(exa)[p] && Where(exa)[p][x] == w[p][x]
    {
      assert p.Offsets() == old(p.Offsets()) - {o};
      assert x in p.Offsets();
    }
  }

  /** No more than five pools have a page that they do not need. */
  ghost predicate Tidy(exa: Exa)
    reads exa`pools, exa.pools
  {
    |set p | p in exa.pools && p.remain >= 4096| <= 5
  }

  lemma SetSize(l: seq<Pool>)
    ensures |Set(l)| <= |l|
  {
    if l != [] {
      SetSize(l[..|l| - 1]);
      assert l == l[..|l| - 1] + [l[|l| - 1]];
      assert Set(l) == Set(l[..|l| - 1]) + {l[|l| - 1]};
    }
  }

  lemma TidyIs(exa: Exa, light: seq<Pool>)
    requires |light| <= 5
    requires forall p {:trigger p in exa.pools} :: p in exa.pools ==> p in light || p.remain < 4096
    ensures Tidy(exa)
  {
    SetSize(light);
    SubsetSize((set p | p in exa.pools && p.remain >= 4096), Set(light));
  }

  /** Nothing is left in `from` that the transfer could have moved. */
  ghost predicate Settles(to: Pool, from: Pool, fast: bool, memory: bool, slots: int)
    reads to, from
  {
    if fast then PoolPolicy.Blocked(GapsOf(to), to.poolSize, from.live, memory, slots) else Stuck(to, from)
  }

  /** A request to one pool of the list */
  method AskFrom(exa: Exa, i: nat, n: nat, o: Owner, defrag: bool, memory: bool, held: map<Owner?, nat>)
    returns (held': map<Owner?, nat>)
    requires exa.Valid() && Knows(held, exa.all) && o !in held && 0 < n && i < |exa.pools|
    modifies exa`all, exa`Repr, exa.Repr, o
    ensures exa.Valid() && Knows(held', exa.all) && exa.Repr <= old(exa.Repr) + {o}
    ensures exa.all == old(exa.all) || Obtained(old(exa.all), exa.all, n, o)
    ensures old(exa.NoneEmpty()) ==> exa.NoneEmpty()
    ensures var p, size := old(exa.pools[i]), (n + 127) / 128 * 128;
            old(Serves(LookOf(p), p.poolSize, size)) || (defrag && memory && size <= old(p.remain)) ==> o in exa.all
  {
    hide Good, Exa.ValidWith, Pool.Offsets, Serves, Turned;
    held' := held;
    var p, size := exa.pools[i], AlignSize(n);
    ghost var look := LookOf(p);
    var data := AllocAt(exa, i, size, o, defrag, memory);
    if data >= 0 {
      held' := held[o := size];
    } else if defrag && memory {
      TurnedForSpace(look, LookOf(p), p.poolSize, size);
    }
  }

  /** One request; those that make no sense to the owners are not made. */
  method Request(exa: Exa, op: Op, held: map<Owner?, nat>) returns (held': map<Owner?, nat>)
    requires exa.Valid() && Knows(held, exa.all)
    modifies exa, exa.Repr, Asking(op)
    ensures exa.Valid() && Knows(held', exa.all) && Step(op, old(exa.all), exa.all)
    ensures fresh(exa.Repr - old(exa.Repr) - Asking(op))
    ensures Gentle(op) ==> OthersPlaced(old(Where(exa)), Where(exa), op.owner)
    ensures old(exa.NoneEmpty()) ==> exa.NoneEmpty()
    ensures op.GetFrom? && Small(op.bytes) && op.owner !in old(exa.all) && op.pool < old(|exa.pools|) ==>
              var p, size := old(exa.pools[op.pool]), (op.bytes + 127) / 128 * 128;
              old(Serves(LookOf(p), p.poolSize, size)) || (op.defrag && op.memory && size <= old(p.remain)) ==>
                op.owner in exa.all
    ensures op.Compact? ==> exa.slowTime == op.end && (op.kernel.buffers && old(exa.NoneEmpty()) ==> Tidy(exa))
    ensures op.Defragment? && op.pool < old(|exa.pools|) ==> exists k :: Packed(old(exa.pools[op.pool]).T(), k)
    ensures op.Move? && op.to != op.from && op.to < old(|exa.pools|) && op.from < old(|exa.pools|) ==>
              Settles(old(exa.pools[op.to]), old(exa.pools[op.from]), op.fast, op.memory, old(|exa.pools[op.to].used|))
  {
    hide Good, Exa.ValidWith, Pool.Offsets, Undisturbed, OthersPlaced, Where, Serves, Turned, Settles,
         PoolLayout.Packed, Stuck, Tidy, AwayWith, Examined, Content, Slack, HalvesIn;
    held' := held;
    ghost var w := Where(exa);
    NotDisturbed(w);
    if Gentle(op) { UndisturbedPlaces(w, w, op.owner); }
    match op
    case Get(n, o, blockcnt, clock, k) =>
      if o !in held && 0 < n {
        var r, _ := AllocSmall(exa, n, o, blockcnt, clock, k);
        if blockcnt > 0 { UndisturbedPlaces(w, Where(exa), o); }
        if r.Allocated? {
          held' := held[o := AlignSize(n)];
        }
      }
    case Put(o) =>
      if o in held {
        PutBack(exa, o);
        held' := held - {o};
      } else {
        assert exa.all - {o} == exa.all;
      }
    case Write(o, k, v) =>
      if o in held && k < held[o] {
        WriteAt(exa, o, k, v);
      }
    case Compact(k, end) =>
      var err, light := CompactPoolsSlow(exa, k, end);
      if !err { TidyIs(exa, light); }
    case GetFrom(i, n, o, defrag, memory) =>
      if o !in held && 0 < n && i < |exa.pools| {
        held' := AskFrom(exa, i, n, o, defrag, memory, held);
      }
    case Defragment(i) =>
      if i < |exa.pools| {
        DefragAt(exa, i);
      }
    case Move(i, j, fast, memory) =>
      if i < |exa.pools| && j < |exa.pools| && i != j {
        MoveAt(exa, i, j, fast, memory);
      }
  }

  /** Any sequence of requests, defragmentations and transfers, with compaction wherever it is asked for
      or an allocation causes it. */
  method Run(exa: Exa, ops: seq<Op>, held0: map<Owner?, nat>)
    returns (held: map<Owner?, nat>, ghost states: seq<Live>, ghost places: seq<Places>)
    requires exa.Valid() && Knows(held0, exa.all)
    modifies exa, exa.Repr, set op, o | op in ops && o in Asking(op) :: o
    ensures exa.Valid() && Knows(held, exa.all)
    ensures Trace(ops, states) && states[0] == old(exa.all) && states[|ops|] == exa.all
    ensures PlaceTrace(ops, places) && places[0] == old(Where(exa)) && places[|ops|] == Where(exa)
    ensures old(exa.NoneEmpty()) ==> exa.NoneEmpty()
  {
    hide Good, Exa.ValidWith, Step, Knows, OthersPlaced, Where, Exa.NoneEmpty;
    held, states, places := held0, [exa.all], [Where(exa)];
    ghost var owners := set op, o | op in ops && o in Asking(op) :: o;
    for i := 0 to |ops|
      invariant exa.Valid() && Knows(held, exa.all) && fresh(exa.Repr - old(exa.Repr) - owners)
      invariant Trace(ops[..i], states) && states[0] == old(exa.all) && states[i] == exa.all
      invariant PlaceTrace(ops[..i], places) && places[0] == old(Where(exa)) && places[i] == Where(exa)
      invariant old(exa.NoneEmpty()) ==> exa.NoneEmpty()
    {
      assert ops[i] in ops;
      held := Request(exa, ops[i], held);
      states, places := states + [exa.all], places + [Where(exa)];
    }
    assert ops[..|ops|] == ops;
  }
}
