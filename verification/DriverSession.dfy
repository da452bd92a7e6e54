/** Whole runs of the drawing engine and the pools together. Jobs that wait hold the offsets of pool
    entries; while they wait, the engine's counter keeps the pools from moving them. */
module DriverSession {
  import opened Screens
  import opened Drawing
  import opened DrawingSession
  import opened MemPool
  import opened PoolPolicy
  import PoolSession

  datatype Act =
    | Paint(op: Op)
    | Get(p: Pixmap, bytes: nat, clock: Clock, kernel: Kernel)  // memory for the pixmap, from the pools
    | GiveBack(p: Pixmap)  // the pixmap has been released, or is frozen

  /** The entries of the pixmaps that have one */
  type Entries = map<Pixmap, Owner>

  /** The pools hold exactly the entries of the pixmaps, and the two machines have nothing in common. */
  ghost predicate Linked(e: Engine, exa: Exa, home: Entries)
    reads exa, exa.Repr
  {
    && exa.Valid() && e !in exa.Repr && e.all !! exa.Repr && home.Keys <= e.all
    && (forall p {:trigger home[p]} :: p in home ==> home[p] in exa.all)
    && (forall p, q {:trigger home[p], home[q]} :: p in home && q in home && p != q ==> home[p] != home[q])
    && (forall o {:trigger o in exa.all} :: o in exa.all ==> Belongs(home, o))
  }

  ghost predicate Belongs(home: Entries, o: Owner?) {
    exists p :: p in home && home[p] == o
  }

  /** The handle leads to a place in this pool. */
  ghost predicate Inside(w: Places, o: Owner?, pool: Pool) {
    pool in w && o in w[pool]
  }

  /** A driver that has just started: no pixmap has an entry. */
  method Begin(all: set<Pixmap>) returns (e: Engine, exa: Exa)
    requires forall p {:trigger p in all} :: p in all ==> p.Sized() && p.Balanced(0) && !p.solidFill && p.locks == 0
    ensures fresh(e) && fresh(exa) && fresh(exa.Repr) && e.all == all && Idle(e) && Linked(e, exa, map[])
  {
    hide Idle, Pixmap.Sized, Pixmap.Balanced;
    e := Start(all);
    exa := new Exa();
  }

  lemma SlotInTable(p: Pool, o: Owner?)
    requires PoolOk(p) && o in p.live
    ensures o in p.Offsets()
  {
    OkLiveKeys(p);
    OwnedNow(p);
  }

  /** Every entry has one place. */
  lemma OnePlace(e: Engine, exa: Exa, home: Entries, p: Pixmap) returns (pool: Pool)
    requires Linked(e, exa, home) && p in home
    ensures forall q {:trigger Inside(Where(exa), home[p], q)} :: Inside(Where(exa), home[p], q) <==> q == pool
  {
    hide Pool.Valid, Tie;
    var o, pools := home[p], Set(exa.pools) + {};
    assert o in exa.all;
    HolderIs(pools, exa.all, exa.Repr, o);
    forall q | q in pools ensures o in q.Offsets() ==> q == o.pool {
      assert PoolOk(q);
      OkLiveKeys(q);
      assert q.slot == q.slot;
    }
    pool := o.pool;
    assert PoolOk(pool);
    SlotInTable(pool, o);
  }

  /** What both machines look like between two requests */
  datatype Moment = Moment(jobs: seq<Job<Pixmap?>>, home: Entries, places: Places)

  ghost function Now(e: Engine, exa: Exa, home: Entries): (r: Moment)
    reads e`jobs, exa`pools, exa.pools
  {
    Moment(e.jobs, home, Where(exa))
  }

  /** A waiting job refers to the pixmap. */
  ghost predicate InUse(jobs: seq<Job<Pixmap?>>, p: Pixmap) {
    !Screens.Untouched(jobs, p)
  }

  /** The entries of the pixmaps that the waiting jobs of `m` refer to are where they were. */
  ghost predicate KeepsPlaces(m: Moment, m': Moment) {
    forall p, pool {:trigger Inside(m.places, m.home[p], pool)} ::
      p in m.home && InUse(m.jobs, p) && pool in m.places && Inside(m.places, m.home[p], pool) ==>
      && p in m'.home && m'.home[p] == m.home[p]
      && Inside(m'.places, m.home[p], pool) && m'.places[pool][m.home[p]] == m.places[pool][m.home[p]]
  }

  /** Drawing moves no entry, and jobs are queued and submitted by drawing only. */
  ghost predicate Step(act: Act, m: Moment, m': Moment) {
    if act.Paint? then
      m'.home == m.home && m'.places == m.places && (m'.jobs == [] || m.jobs <= m'.jobs)
    else
      m'.jobs == m.jobs && KeepsPlaces(m, m')
  }

  ghost predicate Trace(acts: seq<Act>, ms: seq<Moment>) {
    |ms| == |acts| + 1 && forall i {:trigger acts[i]} :: 0 <= i < |acts| ==> Step(acts[i], ms[i], ms[i + 1])
  }

  /** From the moment when a job is queued to the moment when its batch is submitted, the entry of every
      pixmap that it refers to stays in the same pool at the same offset. */
  lemma {:induction false} JobsKeepPlaces(acts: seq<Act>, ms: seq<Moment>, i: nat, j: nat, p: Pixmap, pool: Pool)
    requires Trace(acts, ms) && i <= j < |ms| && forall t {:trigger ms[t]} :: i <= t < j ==> ms[t].jobs != []
    requires p in ms[i].home && InUse(ms[i].jobs, p) && Inside(ms[i].places, ms[i].home[p], pool)
    ensures var o := ms[i].home[p];
            && p in ms[j].home && ms[j].home[p] == o
            && Inside(ms[j].places, o, pool) && ms[j].places[pool][o] == ms[i].places[pool][o]
    ensures ms[j].jobs == [] || ms[i].jobs <= ms[j].jobs
    decreases j - i
  {
    if i < j {
      JobsKeepPlaces(acts, ms, i, j - 1, p, pool);
      var m := ms[j - 1];
      assert m.jobs != [] && Step(acts[j - 1], m, ms[j]);
      StillTouched(ms[i].jobs, m.jobs, p);
      assert Inside(m.places, m.home[p], pool);
    }
  }

  lemma StillTouched(js: seq<Job<Pixmap?>>, js': seq<Job<Pixmap?>>, p: Pixmap)
    requires js <= js' && InUse(js, p)
    ensures InUse(js', p)
  {
    var k :| 0 <= k < |js| && js[k].Touches(p);
    assert js'[k].Touches(p);
  }

  lemma UndisturbedKeeps(m: Moment, m': Moment)
    requires Undisturbed(m.places, m'.places)
    requires forall p {:trigger m.home[p]} :: p in m.home ==> p in m'.home && m'.home[p] == m.home[p]
    ensures KeepsPlaces(m, m')
  {
    forall p, pool | p in m.home && Inside(m.places, m.home[p], pool)
      ensures Inside(m'.places, m.home[p], pool) && m'.places[pool][m.home[p]] == m.places[pool][m.home[p]]
    {
      assert Stay(m.places[pool], m'.places[pool]);
    }
  }

  lemma NothingWaitsKeeps(m: Moment, m': Moment)
    requires m.jobs == []
    ensures KeepsPlaces(m, m')
  {
  }

  /** The pixmap lives and has no entry yet, and a small pool serves the size. */
  ghost predicate Served(e: Engine, home: Entries, p: Pixmap, bytes: nat)
    reads e, p`destroyed
  {
    p in e.all && p !in home && !p.destroyed && PoolSession.Small(bytes)
  }

  /** A pixmap without an entry gets one, from pools that know whether jobs are waiting. It does not get
      one only if no buffer can be had, or if the size is none for the small pools. */
  method GetEntry(e: Engine, exa: Exa, home: Entries, p: Pixmap, bytes: nat, clock: Clock, k: Kernel)
    returns (home': Entries)
    requires Idle(e) && Linked(e, exa, home)
    modifies exa, exa.Repr
    ensures Idle(e) && Linked(e, exa, home') && fresh(exa.Repr - old(exa.Repr))
    ensures KeepsPlaces(old(Now(e, exa, home)), Now(e, exa, home'))
    ensures home' == home || (p !in home && p in home' && home' == home[p := home'[p]])
    ensures !Served(e, home, p, bytes) ==> home' == home
    ensures Served(e, home, p, bytes) && k.buffers ==> p in home'
    ensures p in home' && p !in home ==> |exa.all[home'[p]]| == (bytes + 127) / 128 * 128
  {
    hide Idle, Exa.ValidWith, Undisturbed, Where, KeepsPlaces, Serves, NoGap, MadeFor, Spare, Remains, SlowDue, FastDue,
         NoneHas, Exa.NoneEmpty, Exa.Open, LookOf, PoolPolicy.Set;
    home' := home;
    ghost var m := Now(e, exa, home);
    if p in e.all && p !in home && !p.destroyed && 0 < bytes {
      Counter(e);
      var owner := new Owner();
      var r, _ := AllocSmall(exa, bytes, owner, e.blockcnt, clock, k);
      if r.Allocated? {
        home' := home[p := owner];
        NewBelongs(home, p, owner);
      }
    } else {
      NotDisturbed(m.places);
    }
    if e.jobs == [] {
      NothingWaitsKeeps(m, Now(e, exa, home'));
    } else {
      UndisturbedKeeps(m, Now(e, exa, home'));
    }
  }

  lemma NewBelongs(home: Entries, p: Pixmap, owner: Owner)
    requires p !in home
    ensures Belongs(home[p := owner], owner)
    ensures forall o {:trigger Belongs(home, o)} :: Belongs(home, o) ==> Belongs(home[p := owner], o)
  {
    assert home[p := owner][p] == owner;
    forall o | Belongs(home, o) ensures Belongs(home[p := owner], o) {
      var q :| q in home && home[q] == o;
      assert home[p := owner][q] == o;
    }
  }

  lemma Counter(e: Engine)
    requires Idle(e)
    ensures e.blockcnt > 0 <==> e.jobs != []
  {
    hide Engine.Valid;
    BlockedWhileWaiting(e);
  }

  /** The entry of a pixmap that neither a batch nor a bracket holds goes back to the pools. */
  method GiveBackEntry(e: Engine, exa: Exa, home: Entries, p: Pixmap) returns (home': Entries)
    requires Idle(e) && Linked(e, exa, home)
    modifies exa, exa.Repr
    ensures Idle(e) && Linked(e, exa, home') && exa.Repr == old(exa.Repr)
    ensures KeepsPlaces(old(Now(e, exa, home)), Now(e, exa, home'))
    ensures home' == if p in home && p.freezerLockcnt == 0 then home - {p} else home
  {
    hide Idle, Exa.ValidWith, Where, KeepsPlaces, PoolSession.OthersPlaced;
    home' := home;
    ghost var m := Now(e, exa, home);
    if p in home && p.freezerLockcnt == 0 {
      NotQueued(e, p);
      PoolSession.PutBack(exa, home[p]);
      home' := home - {p};
      OneGone(home, p, exa.all.Keys);
      OthersKeep(m, Now(e, exa, home'), p);
    } else {
      NotDisturbed(m.places);
      UndisturbedKeeps(m, m);
    }
  }

  lemma NotQueued(e: Engine, p: Pixmap)
    requires Idle(e) && p in e.all && p.freezerLockcnt == 0
    ensures !InUse(e.jobs, p)
  {
    hide Engine.Valid;
    if InUse(e.jobs, p) { QueuedHeld(e, p); }
  }

  lemma OneGone(home: Entries, p: Pixmap, left: set<Owner?>)
    requires p in home && home[p] !in left && forall o {:trigger o in left} :: o in left ==> Belongs(home, o)
    ensures forall o {:trigger o in left} :: o in left ==> Belongs(home - {p}, o)
  {
    forall o | o in left ensures Belongs(home - {p}, o) {
      var q :| q in home && home[q] == o;
      assert (home - {p})[q] == o;
    }
  }

  lemma OthersKeep(m: Moment, m': Moment, p: Pixmap)
    requires p in m.home && !InUse(m.jobs, p) && m'.home == m.home - {p}
    requires PoolSession.OthersPlaced(m.places, m'.places, m.home[p])
    requires forall q {:trigger m.home[q]} :: q in m.home && q != p ==> m.home[q] != m.home[p]
    ensures KeepsPlaces(m, m')
  {
    forall q, pool | q in m.home && q != p && Inside(m.places, m.home[q], pool)
      ensures Inside(m'.places, m.home[q], pool) && m'.places[pool][m.home[q]] == m.places[pool][m.home[q]]
    {
      assert m.home[q] in m.places[pool];
    }
  }

  /** The drawing operations of a run */
  ghost function Drawings(acts: seq<Act>): (r: seq<Op>) {
    if acts == [] then [] else
      Drawings(acts[..|acts| - 1]) + if acts[|acts| - 1].Paint? then [acts[|acts| - 1].op] else []
  }

  /** One request. `s` is where the eager machine would be. */
  method Perform(e: Engine, exa: Exa, act: Act, home: Entries, ghost s: Eager) returns (home': Entries)
    requires Idle(e) && Linked(e, exa, home) && Alike(s, Abstract(e)) && (act.Paint? ==> Possible(s, act.op))
    modifies e, e.all, exa, exa.Repr
    ensures Idle(e) && Linked(e, exa, home') && fresh(exa.Repr - old(exa.Repr))
    ensures Alike(if act.Paint? then DrawingSession.Step(s, act.op) else s, Abstract(e))
    ensures Step(act, old(Now(e, exa, home)), Now(e, exa, home'))
    ensures act.Get? && old(Served(e, home, act.p, act.bytes)) && act.kernel.buffers ==> act.p in home'
    ensures act.GiveBack? && act.p in home && old(act.p.freezerLockcnt) == 0 ==> act.p !in home'
  {
    hide Idle, Exa.ValidWith, Where, KeepsPlaces, Abstract, Alike, Possible, DrawingSession.Step;
    home' := home;
    match act
    case Paint(op) =>
      var _ := Advance(e, op, s);
    case Get(p, bytes, clock, k) =>
      home' := GetEntry(e, exa, home, p, bytes, clock, k);
    case GiveBack(p) =>
      home' := GiveBackEntry(e, exa, home, p);
  }

  lemma TraceNone(m: Moment)
    ensures Trace([], [m])
  {
  }

  lemma StepsNone(s: Eager)
    ensures Steps(s, Drawings([])) == s
  {
  }

  lemma DrawingsMore(s: Eager, acts: seq<Act>, i: nat)
    requires i < |acts|
    ensures var ops, act := Drawings(acts[..i]), acts[i];
            Steps(s, Drawings(acts[..i + 1])) ==
            if act.Paint? then DrawingSession.Step(Steps(s, ops), act.op) else Steps(s, ops)
  {
    hide DrawingSession.Step;
    var ops := Drawings(acts[..i]);
    assert acts[..i + 1][..i] == acts[..i];
    if acts[i].Paint? {
      assert Drawings(acts[..i + 1]) == ops + [acts[i].op] && (ops + [acts[i].op])[..|ops|] == ops;
    } else {
      assert Drawings(acts[..i + 1]) == ops;
    }
  }

  lemma TraceMore(acts: seq<Act>, i: nat, ms: seq<Moment>, m: Moment)
    requires i < |acts| && |ms| == i + 1 && Trace(acts[..i], ms) && Step(acts[i], ms[i], m)
    ensures Trace(acts[..i + 1], ms + [m])
  {
    hide Step;
    forall k | 0 <= k < i + 1 ensures Step(acts[..i + 1][k], (ms + [m])[k], (ms + [m])[k + 1]) {
      if k < i { assert Step(acts[..i][k], ms[k], ms[k + 1]); }
    }
  }

  /** Any run of drawing, allocation and release: the pools hold exactly the entries of the pixmaps at
      every moment, and the entries that waiting jobs refer to stay where they are. */
  method Run(e: Engine, exa: Exa, acts: seq<Act>, home0: Entries)
    returns (home: Entries, ghost ms: seq<Moment>)
    requires Idle(e) && Linked(e, exa, home0)
    requires forall i {:trigger acts[i]} :: 0 <= i < |acts| && acts[i].Paint? ==>
               Possible(Steps(Abstract(e), Drawings(acts[..i])), acts[i].op)
    modifies e, e.all, exa, exa.Repr
    ensures Idle(e) && Linked(e, exa, home)
    ensures |ms| == |acts| + 1 && Trace(acts, ms)
    ensures ms[0] == old(Now(e, exa, home0)) && ms[|acts|] == Now(e, exa, home)
  {
    hide Idle, Linked, Now, Step, Trace, Abstract, Alike, Possible, Steps, Drawings, DrawingSession.Step;
    TraceNone(Now(e, exa, home0));
    StepsNone(Abstract(e));
    home, ms := home0, [Now(e, exa, home0)];
    ghost var start := Abstract(e);
    AlikeSelf(start);
    for i := 0 to |acts|
      invariant Idle(e) && Linked(e, exa, home) && fresh(exa.Repr - old(exa.Repr))
      invariant Alike(Steps(start, Drawings(acts[..i])), Abstract(e))
      invariant |ms| == i + 1 && Trace(acts[..i], ms) && ms[0] == old(Now(e, exa, home0)) && ms[i] == Now(e, exa, home)
    {
      DrawingsMore(start, acts, i);
      home := Perform(e, exa, acts[i], home, Steps(start, Drawings(acts[..i])));
      TraceMore(acts, i, ms, Now(e, exa, home));
      ms := ms + [Now(e, exa, home)];
    }
    assert acts[..|acts|] == acts;
  }
}
