/** The deferred drawing engine: recorded fills and the 3D batch (src/exa/optimizations_2d.c,
    src/exa/optimizations_3d.c), the brackets that drive them (src/exa/solid_2d.c, src/exa/copy_2d.c,
    src/exa/composite_3d_state_tracker.c), CPU access and the life of pixmaps (src/exa/pixmap.c).

    A job that is submitted to the hardware is executed at once: the fences make every later access wait. */
module Drawing {
  import opened Screens
  import opened Batch
  import opened Lists

  /** `struct tegra_pixmap` */
  class Pixmap {
    const width: nat
    const height: nat
    const scanout: bool
    var data: Image
    var solidFill: bool
    var solidColor: Color
    var refcnt: nat
    var freezerLockcnt: nat
    var destroyed: bool
    ghost var locks: nat  // drawing brackets in progress on this pixmap
    ghost var releases: nat  // how often its data was released

    constructor (width: nat, height: nat, scanout: bool, data: Image)
      requires forall pt {:trigger pt in data} :: pt in data ==> 0 <= pt.x < width && 0 <= pt.y < height
      ensures Sized() && Balanced(0) && !solidFill && !destroyed && locks == 0 && this.data == data
      ensures this.scanout == scanout
    {
      this.width, this.height, this.scanout, this.data := width, height, scanout, data;
      solidFill, solidColor, refcnt, freezerLockcnt, destroyed := false, 0, 1, 0, false;
      locks, releases := 0, 0;
    }

    ghost predicate Sized()
      reads `data
    {
      forall pt {:trigger pt in data} :: pt in data ==> 0 <= pt.x < width && 0 <= pt.y < height
    }

    /** `n` references of the batch: the counters agree with them, and the data goes when the pixmap is
        destroyed and the last of them is gone, once. */
    ghost predicate Balanced(n: nat)
      reads `refcnt, `freezerLockcnt, `releases, `destroyed, `locks
    {
      && refcnt == n + (if releases == 0 then 1 else 0) && freezerLockcnt == n + locks
      && releases <= 1 && (releases == 1 <==> destroyed && n == 0) && (locks > 0 ==> !destroyed)
    }
  }

  class Engine {
    const all: set<Pixmap>
    var table: seq<Entry<Pixmap?>>
    var jobs: seq<Job<Pixmap?>>
    var curDst: Pixmap?
    var timer: bool
    var blockcnt: nat  // `pool_compaction_blockcnt`
    var attribs: nat  // `attrib_offset`: the bytes of the vertex buffer that the queued jobs use
    var wrap3d: nat  // the nesting of the 3D context
    var in2dFlush: bool
    var stream: seq<Cmd<Pixmap?>>
    var color: Color
    var optimize: bool
    var cpuAccess: bool
    var copyOptimize: bool  // the flag of the copy bracket around a fill bracket

    /** The engine of a screen with these pixmaps */
    constructor (all: set<Pixmap>)
      requires forall p {:trigger p in all} :: p in all ==> p.Sized() && p.Balanced(0) && !p.solidFill
      ensures Valid() && Quiet(this) && jobs == [] && attribs == 0 && this.all == all
    {
      this.all := all;
      table, jobs, curDst, timer, blockcnt, attribs := [], [], null, false, 0, 0;
      wrap3d, in2dFlush, stream, color := 0, false, [], 0;
      optimize, cpuAccess, copyOptimize := false, false, false;
    }

    ghost function Mem(): (r: Screen<Pixmap?>)
      reads all`data
    {
      map p: Pixmap? | p in all :: p.data
    }

    ghost function Solids(): (r: map<Pixmap?, Color>)
      reads all`solidFill, all`solidColor
    {
      map p: Pixmap? | p in all && p.solidFill :: p.solidColor
    }

    ghost function Refs(): (r: seq<Reference<Pixmap?>>)
      reads `jobs
    {
      AllRefs(jobs, null)
    }

    ghost predicate Counted(refs: seq<Reference<Pixmap?>>)
      reads all`refcnt, all`freezerLockcnt, all`releases, all`destroyed, all`locks
    {
      forall p {:trigger p in all} :: p in all ==> p.Balanced(Count(refs, p))
    }

    ghost predicate JobsOk()
      reads `jobs
    {
      forall i {:trigger jobs[i]} :: 0 <= i < |jobs| ==> JobOk(jobs[i], all)
    }

    /** The render target of the 3D state is the one that the last queued job writes. */
    ghost predicate Cursor()
      reads `jobs, `curDst, `timer
    {
      && (curDst != null ==> jobs != [] && jobs[|jobs| - 1].dst == curDst)
      && (timer <==> jobs != [])
    }

    /** Pool entries are not moved as long as the flush timer runs. */
    ghost predicate Waiting()
      reads `timer, `blockcnt
    {
      blockcnt == if timer then 1 else 0
    }

    /** All queued jobs share one vertex buffer, which is never overrun. */
    ghost predicate Vertices()
      reads `jobs, `attribs
    {
      attribs == AllBytes(jobs, null) && attribs <= ATTRIB_SIZE
    }

    ghost predicate Book(refs: seq<Reference<Pixmap?>>)
      reads `table, all`refcnt, all`freezerLockcnt, all`releases, all`destroyed, all`locks
    {
      && Booked(table, refs) && |table| <= MAX_PIXMAPS && Counted(refs)
      && forall k {:trigger table[k]} :: 0 <= k < |table| ==> table[k].pixmap != null && table[k].pixmap in all
    }

    /** A pixmap never has both a recorded fill and a place in the batch. */
    ghost predicate Apart()
      reads `jobs, all`data, all`solidFill, all`solidColor
    {
      && Exclusive(Solids(), jobs)
      && forall p {:trigger p in all} :: p in all ==> p.Sized() && (p.solidFill ==> !p.scanout)
    }

    ghost predicate Valid()
      reads `table, `jobs, `curDst, `timer, `blockcnt, `attribs, all
    {
      JobsOk() && Cursor() && Waiting() && Vertices() && Book(Refs()) && Apart()
    }

    ghost function Locks(): (r: map<Pixmap, nat>)
      reads all`locks
    {
      map p | p in all :: p.locks
    }

    /** A fill bracket is in progress on `p`. */
    ghost predicate FillBracket(p: Pixmap)
      reads `stream, `color, `optimize, `cpuAccess, `in2dFlush, `jobs, p`solidFill, p`locks
    {
      && p in all && p.locks > 0 && AllFill(stream, p, color)
      && (if optimize then !in2dFlush && !p.scanout else !p.solidFill) && (cpuAccess ==> Untouched(jobs, p))
    }

    /** The copy bracket in progress has turned into a fill bracket. */
    predicate Converted(src: Pixmap)
      reads `copyOptimize, src`solidFill
    {
      copyOptimize && src.solidFill
    }

    /** A copy bracket is in progress. */
    ghost predicate CopyBracket(dst: Pixmap, src: Pixmap)
      reads this, dst, src
    {
      && src in all && dst in all && src != dst && src.locks > 0 && dst.locks > 0 && !in2dFlush && wrap3d == 0
      && if Converted(src) then
           FillBracket(dst) && dst.locks > 1 && color == src.solidColor
         else
           AllBlit(stream, dst, src)
    }

    /** Memory, recorded fills and the batch, as an observer sees them. */
    ghost function Shown(): (r: Screen<Pixmap?>)
      reads `jobs, all`data, all`solidFill, all`solidColor
    {
      Seen(Mem(), Solids(), jobs)
    }

    /** The screen, with the commands that wait in the stream of a bracket. */
    ghost function Screen(): (r: Screen<Pixmap?>)
      reads `jobs, `stream, all`data, all`solidFill, all`solidColor
    {
      RunCmds(Shown(), stream)
    }
  }

  ghost predicate JobOk(j: Job<Pixmap?>, all: set<Pixmap>) {
    && j.dst != null && j.dst in all && (j.src != null ==> j.src in all) && (j.mask != null ==> j.mask in all)
  }

  // ---- References ---------------------------------------------------------------------------------

  /** The end of a pixmap: `tegra_exa_destroy_pixmap` with the assertions of `tegra_exa_pixmap_release_data`. */
  method Release(p: Pixmap, table: seq<Entry<Pixmap?>>)
    requires p.refcnt == 1 && p.destroyed && p.freezerLockcnt == 0 && !Holds(table, p) && p.releases == 0
    modifies p`refcnt, p`releases
    ensures p.refcnt == 0 && p.releases == 1
  {
    p.refcnt := p.refcnt - 1;
    p.releases := p.releases + 1;
  }

  /** One reference goes: `tegra_exa_unref_pixmap` after the freezer's lock was dropped. */
  method Unref(p: Pixmap, table: seq<Entry<Pixmap?>>, ghost n: nat)
    requires p.Balanced(n) && n > 0 && (n == 1 ==> !Holds(table, p))
    modifies p`refcnt, p`freezerLockcnt, p`releases
    ensures p.Balanced(n - 1)
  {
    p.freezerLockcnt := p.freezerLockcnt - 1;
    p.refcnt := p.refcnt - 1;
    if p.refcnt == 1 && p.destroyed {
      Release(p, table);
    }
  }

  /** `tegra_exa_3d_state_ref_pixmap` */
  method RefPixmap(e: Engine, p: Pixmap?, write: bool, ghost refs: seq<Reference<Pixmap?>>)
    requires e.Book(refs)
    requires p != null ==> p in e.all && !p.destroyed && (Holds(e.table, p) || |e.table| < MAX_PIXMAPS)
    modifies e`table, e.all`refcnt, e.all`freezerLockcnt
    ensures e.Book(if p == null then refs else refs + [Reference(p, write)])
    ensures |e.table| <= |old(e.table)| + if p == null then 0 else 1
  {
    hide Booked, Count;
    if p == null {
      return;
    }
    p.refcnt, p.freezerLockcnt := p.refcnt + 1, p.freezerLockcnt + 1;
    RefCounted(refs, Reference(p, write));
    var i := 0;
    while i < |e.table|
      invariant i <= |e.table| && forall k {:trigger e.table[k]} :: 0 <= k < i ==> e.table[k].pixmap != p
    {
      var x := e.table[i];
      if x.pixmap == p {
        BookAgain(e.table, refs, i, write);
        e.table := e.table[i := x.(refcnt := x.refcnt + 1, read := x.read || !write, write := x.write || write)];
        return;
      }
      i := i + 1;
    }
    BookNew(e.table, refs, p, write);
    e.table := e.table + [Entry(p, 1, !write, write)];
  }

  lemma RefCounted(refs: seq<Reference<Pixmap?>>, r: Reference<Pixmap?>)
    ensures forall p: Pixmap? {:trigger Count(refs + [r], p)} ::
              Count(refs + [r], p) == Count(refs, p) + if r.pixmap == p then 1 else 0
  {
    forall p: Pixmap? ensures Count(refs + [r], p) == Count(refs, p) + if r.pixmap == p then 1 else 0 {
      CountAppend(refs, r, p);
    }
  }

  /** How many references a pixmap has left once the entries before `i` have been dropped */
  ghost function Left(t: seq<Entry<Pixmap?>>, i: nat, refs: seq<Reference<Pixmap?>>, p: Pixmap?): (n: nat) {
    if exists k :: i <= k < |t| && t[k].pixmap == p then Count(refs, p) else 0
  }

  lemma LeftStep(t: seq<Entry<Pixmap?>>, i: nat, refs: seq<Reference<Pixmap?>>)
    requires i < |t| && Booked(t, refs)
    ensures forall p: Pixmap? {:trigger Left(t, i + 1, refs, p)} ::
              Left(t, i + 1, refs, p) == if p == t[i].pixmap then 0 else Left(t, i, refs, p)
    ensures Left(t, i, refs, t[i].pixmap) == t[i].refcnt == Count(refs, t[i].pixmap) > 0
  {
    assert Exact(t[i], refs);
    forall p: Pixmap? ensures Left(t, i + 1, refs, p) == if p == t[i].pixmap then 0 else Left(t, i, refs, p) {
      if p == t[i].pixmap {
        assert forall k :: i + 1 <= k < |t| ==> t[k].pixmap != p;
      }
    }
  }

  lemma LeftAll(t: seq<Entry<Pixmap?>>, refs: seq<Reference<Pixmap?>>)
    requires Booked(t, refs)
    ensures forall p: Pixmap? {:trigger Left(t, 0, refs, p)} {:trigger Count(refs, p)} ::
              Left(t, 0, refs, p) == Count(refs, p)
  {
    forall p: Pixmap? ensures Left(t, 0, refs, p) == Count(refs, p) {
      CountIn(refs, p);
      if Count(refs, p) > 0 {
        var w :| Reference(p, w) in refs;
        assert Holds(t, p);
      }
    }
  }

  /** The references of one entry, `tegra_exa_optimized_3d_state_unref_all_pixmaps` from inside: the
      entry is taken out of the table before its last reference goes. */
  method UnrefEntry(e: Engine, i: nat)
    requires i < |e.table| && e.table[i].pixmap != null && e.table[i].pixmap.Balanced(e.table[i].refcnt)
    requires e.table[i].refcnt > 0
    requires forall k {:trigger e.table[k]} :: 0 <= k < |e.table| && k != i ==> e.table[k].pixmap != e.table[i].pixmap
    modifies e`table, e.table[i].pixmap`refcnt, e.table[i].pixmap`freezerLockcnt, e.table[i].pixmap`releases
    ensures |e.table| == |old(e.table)| && e.table[i].pixmap == null
    ensures forall k {:trigger e.table[k]} :: 0 <= k < |e.table| && k != i ==> e.table[k] == old(e.table)[k]
    ensures old(e.table)[i].pixmap.Balanced(0)
  {
    var p: Pixmap := e.table[i].pixmap;
    var n := e.table[i].refcnt;
    while n > 0
      invariant p.Balanced(n)
      invariant |e.table| == |old(e.table)| && e.table[i].pixmap == (if n > 0 then p else null)
      invariant forall k {:trigger e.table[k]} :: 0 <= k < |e.table| && k != i ==> e.table[k] == old(e.table)[k]
    {
      n := n - 1;
      if n == 0 {
        e.table := e.table[i := e.table[i].(pixmap := null)];
      }
      Unref(p, e.table, n + 1);
    }
  }

  /** `tegra_exa_optimized_3d_state_unref_all_pixmaps` */
  method UnrefAll(e: Engine, ghost refs: seq<Reference<Pixmap?>>)
    requires Booked(e.table, refs) && e.Counted(refs)
    requires forall k {:trigger e.table[k]} ::
               0 <= k < |e.table| ==> e.table[k].pixmap != null && e.table[k].pixmap in e.all
    modifies e`table, e.all`refcnt, e.all`freezerLockcnt, e.all`releases
    ensures e.table == [] && e.Counted([])
  {
    hide Booked, Count, Left, Pixmap.Balanced;
    ghost var t := e.table;
    LeftAll(t, refs);
    var i := 0;
    while i < |e.table|
      invariant i <= |e.table| == |t|
      invariant forall k {:trigger e.table[k]} :: i <= k < |e.table| ==> e.table[k] == t[k]
      invariant forall k {:trigger e.table[k]} :: 0 <= k < i ==> e.table[k].pixmap == null
      invariant forall p {:trigger p in e.all} :: p in e.all ==> p.Balanced(Left(t, i, refs, p))
    {
      label Entry:
      LeftStep(t, i, refs);
      OthersDiffer(t, refs, i);
      ghost var gone := t[i].pixmap;
      UnrefEntry(e, i);
      forall p | p in e.all ensures p.Balanced(Left(t, i + 1, refs, p)) {
        if p != gone { assert old@Entry(p.Balanced(Left(t, i, refs, p))); }
      }
      i := i + 1;
    }
    NoneLeft(t, refs);
    e.table := [];
  }

  lemma OthersDiffer(t: seq<Entry<Pixmap?>>, refs: seq<Reference<Pixmap?>>, i: nat)
    requires Booked(t, refs) && i < |t|
    ensures forall k {:trigger t[k]} :: 0 <= k < |t| && k != i ==> t[k].pixmap != t[i].pixmap
  {
  }

  lemma NoneLeft(t: seq<Entry<Pixmap?>>, refs: seq<Reference<Pixmap?>>)
    ensures forall p: Pixmap? {:trigger Left(t, |t|, refs, p)} {:trigger Count([], p)} ::
              Left(t, |t|, refs, p) == 0 == Count([], p)
  {
  }

  // ---- Submitting the batch -----------------------------------------------------------------------

  /** `tegra_exa_3d_state_reset`: whatever is queued is gone. */
  method Reset(e: Engine, ghost refs: seq<Reference<Pixmap?>>)
    requires e.Book(refs) && e.Waiting()
    modifies e`table, e`jobs, e`curDst, e`timer, e`blockcnt, e`attribs, e.all`refcnt, e.all`freezerLockcnt,
             e.all`releases
    ensures e.Book(e.Refs()) && e.JobsOk() && e.Cursor() && e.Waiting() && e.Vertices() && e.jobs == []
  {
    if e.timer {
      e.blockcnt := e.blockcnt - 1;
    }
    UnrefAll(e, refs);
    e.jobs, e.curDst, e.timer, e.attribs := [], null, false, 0;
  }

  /** While jobs are queued, and only then, the pools are told not to move what the jobs refer to. */
  lemma BlockedWhileWaiting(e: Engine)
    requires e.Valid()
    ensures e.blockcnt > 0 <==> e.jobs != []
    ensures e.blockcnt <= 1
  {
    hide Engine.Book, Engine.Apart, Engine.JobsOk;
  }

  /** A pixmap that a queued job touches is held: its data is neither frozen nor released. */
  lemma QueuedHeld(e: Engine, p: Pixmap)
    requires e.Valid() && p in e.all && !Untouched(e.jobs, p)
    ensures p.freezerLockcnt > 0 && p.releases == 0
  {
    hide Engine.Apart, Engine.JobsOk, Engine.Vertices, Booked;
    TableMeans(e.table, e.jobs, p, null);
  }

  /** The picture of a pixmap in memory, and nothing for no pixmap */
  function Picture(p: Pixmap?): (r: Image)
    reads p
  {
    if p == null then map[] else p.data
  }

  method WritePicture(e: Engine, p: Pixmap, img: Image)
    requires p in e.all && img.Keys == p.data.Keys
    modifies p`data
    ensures e.Mem() == old(e.Mem())[p := img] && e.Solids() == old(e.Solids())
    ensures old(p.Sized()) ==> p.Sized()
  {
    p.data := img;
  }

  /** The hardware executes a job, one rectangle after the other. */
  method ExecuteJob(e: Engine, j: Job<Pixmap?>)
    requires JobOk(j, e.all)
    modifies e.all`data
    ensures e.Mem() == RunJob(old(e.Mem()), j) && e.Solids() == old(e.Solids())
    ensures forall p {:trigger p in e.all} :: p in e.all ==> old(p.Sized()) ==> p.Sized()
  {
    hide Pixmap.Sized, Painted, Engine.Mem, Engine.Solids;
    var d: Pixmap := j.dst;
    for k := 0 to |j.draws|
      invariant e.Mem() == RunDraws(old(e.Mem()), j, k) && e.Solids() == old(e.Solids())
      invariant forall p {:trigger p in e.all} :: p in e.all ==> old(p.Sized()) ==> p.Sized()
    {
      ExecuteDraw(e, d, j, j.draws[k]);
    }
  }

  method ExecuteDraw(e: Engine, d: Pixmap, j: Job<Pixmap?>, paint: Paint)
    requires JobOk(j, e.all) && d == j.dst
    modifies e.all`data
    ensures e.Solids() == old(e.Solids()) && d in old(e.Mem())
    ensures var m := old(e.Mem()); e.Mem() == m[d := Painted(m[d], Pic(m, j.src), Pic(m, j.mask), paint)]
    ensures forall p {:trigger p in e.all} :: p in e.all ==> old(p.Sized()) ==> p.Sized()
  {
    hide Pixmap.Sized, Painted;
    var src, mask := Picture(j.src), Picture(j.mask);
    assert src == Pic(e.Mem(), j.src) && mask == Pic(e.Mem(), j.mask);
    WritePicture(e, d, Painted(d.data, src, mask, paint));
  }

  /** The hardware executes the queued jobs in order. */
  method Execute(e: Engine)
    requires e.JobsOk()
    modifies e.all`data
    ensures e.Mem() == RunJobs(old(e.Mem()), e.jobs) && e.Solids() == old(e.Solids())
    ensures forall p {:trigger p in e.all} :: p in e.all ==> old(p.Sized()) ==> p.Sized()
  {
    hide Pixmap.Sized, JobOk, RunJob, Engine.Mem, Engine.Solids;
    for i := 0 to |e.jobs|
      invariant e.Mem() == RunJobs(old(e.Mem()), e.jobs[..i]) && e.Solids() == old(e.Solids())
      invariant forall p {:trigger p in e.all} :: p in e.all ==> old(p.Sized()) ==> p.Sized()
    {
      assert e.jobs[..i + 1] == e.jobs[..i] + [e.jobs[i]];
      RunJobsAppend(old(e.Mem()), e.jobs[..i], e.jobs[i]);
      ExecuteJob(e, e.jobs[i]);
    }
    assert e.jobs[..|e.jobs|] == e.jobs;
  }

  lemma NothingQueued(solid: map<Pixmap?, Color>)
    ensures Exclusive<Pixmap?>(solid, [])
  {
  }

  /** `tegra_exa_submit_deferred_3d_jobs`. `refs` are the references in the table: a job that finds no
      room there is submitted with the others at once. */
  method SubmitJobs(e: Engine, ghost refs: seq<Reference<Pixmap?>>)
    requires e.Book(refs) && e.JobsOk() && e.Apart() && e.Waiting()
    modifies e`table, e`jobs, e`curDst, e`timer, e`blockcnt, e`attribs, e.all`data, e.all`refcnt,
             e.all`freezerLockcnt, e.all`releases
    ensures e.Valid() && e.jobs == [] && e.Solids() == old(e.Solids()) && e.Shown() == old(e.Shown())
    ensures e.Locks() == old(e.Locks())
  {
    hide Seen, RunJobs, Pixmap.Sized, Exclusive, Engine.Book, Engine.JobsOk;
    SubmitUnseen(e.Mem(), e.Solids(), e.jobs);
    NothingQueued(e.Solids());
    Execute(e);
    ghost var mem, solids := e.Mem(), e.Solids();
    Reset(e, refs);
    assert e.Mem() == mem && e.Solids() == solids;
  }

  /** `tegra_exa_flush_deferred_3d_state`, which must not happen inside the 3D context. */
  method Flush3DState(e: Engine)
    requires e.Valid() && (e.jobs != [] ==> e.wrap3d == 0)
    modifies e`table, e`jobs, e`curDst, e`timer, e`blockcnt, e`attribs, e`wrap3d, e.all`data, e.all`refcnt,
             e.all`freezerLockcnt, e.all`releases
    ensures e.Valid() && e.jobs == [] && e.Solids() == old(e.Solids()) && e.Shown() == old(e.Shown())
    ensures e.wrap3d == old(e.wrap3d) && e.Locks() == old(e.Locks())
  {
    hide Engine.Book, Engine.Apart, Engine.JobsOk, Seen;
    if |e.jobs| == 0 {
      return;
    }
    assert e.wrap3d == 0;
    e.wrap3d := e.wrap3d + 1;
    SubmitJobs(e, e.Refs());
    e.wrap3d := e.wrap3d - 1;
  }

  /** `tegra_exa_pixmap_is_in_deferred_3d_state` */
  method InBatch(e: Engine, p: Pixmap) returns (found: bool)
    requires e.Book(e.Refs())
    ensures found <==> !Untouched(e.jobs, p)
  {
    TableMeans(e.table, e.jobs, p, null);
    found := exists i {:trigger e.table[i]} :: 0 <= i < |e.table| && e.table[i].pixmap == p;
  }

  /** `tegra_exa_pixmap_is_busy`: the fences of submitted jobs may be in any state. */
  method IsBusy(e: Engine, p: Pixmap) returns (busy: bool)
    requires e.Book(e.Refs())
    ensures !busy ==> Untouched(e.jobs, p)
  {
    busy := *;
    if !busy {
      busy := InBatch(e, p);
    }
  }

  /** `tegra_exa_flush_deferred_3d_operations` */
  method Flush3D(e: Engine, p: Pixmap, reads_: bool, writes: bool)
    requires e.Valid() && p in e.all && (!Untouched(e.jobs, p) ==> e.wrap3d == 0)
    modifies e`table, e`jobs, e`curDst, e`timer, e`blockcnt, e`attribs, e`wrap3d, e.all`data, e.all`refcnt,
             e.all`freezerLockcnt, e.all`releases
    ensures e.Valid() && e.Solids() == old(e.Solids()) && e.Shown() == old(e.Shown())
    ensures e.wrap3d == old(e.wrap3d) && e.Locks() == old(e.Locks())
    ensures e.jobs == old(e.jobs) || e.jobs == []
    ensures old(Untouched(e.jobs, p)) ==> e.jobs == old(e.jobs)
    ensures writes ==> Unwritten(e.jobs, p)
    ensures reads_ && writes ==> Untouched(e.jobs, p)
    ensures var due := (reads_ && !old(Unread(e.jobs, p))) || (writes && !old(Unwritten(e.jobs, p)));
            e.jobs == if due then [] else old(e.jobs)
  {
    hide Engine.Apart, Engine.JobsOk, Engine.Cursor, Seen, Booked, RunCmds;
    var flush, i := false, 0;
    TableMeans(e.table, e.jobs, p, null);
    FlagsTell(e.table, e.jobs, p);
    while i < |e.table|
      invariant i <= |e.table| && !flush && forall k {:trigger e.table[k]} :: 0 <= k < i ==> e.table[k].pixmap != p
    {
      if e.table[i].pixmap == p {
        HoldsAt(e.table, i);
        flush := (reads_ && e.table[i].read) || (writes && e.table[i].write);
        break;
      }
      i := i + 1;
    }
    if flush {
      Flush3DState(e);
    }
  }

  /** No job has the pixmap as its source or its mask. */
  ghost predicate Unread(js: seq<Job<Pixmap?>>, p: Pixmap?) {
    forall i {:trigger js[i]} :: 0 <= i < |js| ==> js[i].src != p && js[i].mask != p
  }

  lemma {:induction false} ReadsAre(js: seq<Job<Pixmap?>>, p: Pixmap?)
    requires p != null
    ensures Reference(p, false) in AllRefs(js, null) <==> !Unread(js, p)
  {
    if js != [] {
      var rest, j := js[..|js| - 1], js[|js| - 1];
      ReadsAre(rest, p);
      assert Unread(js, p) <==> Unread(rest, p) && j.src != p && j.mask != p;
      assert Reference(p, false) in JobRefs(j, null) <==> j.src == p || j.mask == p;
    }
  }

  /** The flags of an entry: written by a job, and read by one. */
  lemma FlagsTell(table: seq<Entry<Pixmap?>>, js: seq<Job<Pixmap?>>, p: Pixmap?)
    requires p != null && Booked(table, AllRefs(js, null))
    ensures forall i {:trigger table[i]} :: 0 <= i < |table| && table[i].pixmap == p ==>
              (table[i].write <==> !Unwritten(js, p)) && (table[i].read || table[i].write) && js != []
    ensures forall i {:trigger table[i]} :: 0 <= i < |table| && table[i].pixmap == p ==>
              (table[i].read <==> !Unread(js, p))
    ensures !Unwritten(js, p) || !Unread(js, p) ==> Holds(table, p)
  {
    RefsAre(js, p, null);
    ReadsAre(js, p);
    CountIn(AllRefs(js, null), p);
    if !Unwritten(js, p) || !Unread(js, p) {
      assert Reference(p, true) in AllRefs(js, null) || Reference(p, false) in AllRefs(js, null);
    }
    forall i | 0 <= i < |table| && table[i].pixmap == p
      ensures (table[i].write <==> !Unwritten(js, p)) && (table[i].read || table[i].write) && js != []
      ensures table[i].read <==> !Unread(js, p)
    {
      assert Exact(table[i], AllRefs(js, null));
      var w :| Reference(p, w) in AllRefs(js, null);
      assert w == true || w == false;
    }
  }

  // ---- Recorded fills -----------------------------------------------------------------------------

  method RecordFill(e: Engine, p: Pixmap, c: Color)
    requires p in e.all
    modifies p`solidFill, p`solidColor
    ensures e.Solids() == old(e.Solids())[p := c] && p.solidFill && p.solidColor == c
  {
    p.solidColor := c;
    p.solidFill := true;
  }

  method DropFill(e: Engine, p: Pixmap)
    requires p in e.all
    modifies p`solidFill
    ensures e.Solids() == old(e.Solids()) - {p} && !p.solidFill
  {
    p.solidFill := false;
  }

  ghost predicate CmdOk(c: Cmd<Pixmap?>, all: set<Pixmap>) {
    c.dst != null && c.dst in all && (c.Blit? ==> c.src != null && c.src in all)
  }

  /** The hardware executes a command. */
  method ExecuteCmd(e: Engine, c: Cmd<Pixmap?>)
    requires CmdOk(c, e.all)
    modifies e.all`data
    ensures e.Mem() == RunCmd(old(e.Mem()), c) && e.Solids() == old(e.Solids())
    ensures forall p {:trigger p in e.all} :: p in e.all ==> old(p.Sized()) ==> p.Sized()
  {
    hide Blitted, Filled;
    var d: Pixmap := c.dst;
    match c
    case Fill(_, r, col) =>
      WritePicture(e, d, Filled(d.data, r, col));
    case Blit(_, src, dx, dy, r) =>
      var s := Picture(src);
      assert s == Pic(e.Mem(), src);
      WritePicture(e, d, Blitted(d.data, s, dx, dy, r));
  }

  /** The hardware executes the commands of the stream in order. */
  method Submit2D(e: Engine)
    requires forall i {:trigger e.stream[i]} :: 0 <= i < |e.stream| ==> CmdOk(e.stream[i], e.all)
    modifies e`stream, e.all`data
    ensures e.Mem() == RunCmds(old(e.Mem()), old(e.stream)) && e.Solids() == old(e.Solids()) && e.stream == []
    ensures forall p {:trigger p in e.all} :: p in e.all ==> old(p.Sized()) ==> p.Sized()
  {
    hide Pixmap.Sized, CmdOk, RunCmd, Engine.Mem, Engine.Solids;
    for i := 0 to |e.stream|
      invariant e.stream == old(e.stream) && e.Solids() == old(e.Solids())
      invariant e.Mem() == RunCmds(old(e.Mem()), e.stream[..i])
      invariant forall p {:trigger p in e.all} :: p in e.all ==> old(p.Sized()) ==> p.Sized()
    {
      assert e.stream[..i + 1] == e.stream[..i] + [e.stream[i]];
      RunCmdsAppend(old(e.Mem()), e.stream[..i], e.stream[i]);
      ExecuteCmd(e, e.stream[i]);
    }
    assert e.stream[..|e.stream|] == e.stream;
    e.stream := [];
  }

  /** The end of a 2D bracket: nothing that waits in the stream is held up by the batch or a recorded fill. */
  method Finish2D(e: Engine)
    requires e.Valid()
    requires forall i {:trigger e.stream[i]} :: 0 <= i < |e.stream| ==>
               CmdOk(e.stream[i], e.all) && Clear2D(e.stream[i], e.Solids(), e.jobs)
    modifies e`stream, e.all`data
    ensures e.Valid() && e.stream == [] && e.Solids() == old(e.Solids()) && e.Screen() == old(e.Screen())
  {
    hide Engine.Book, Engine.JobsOk, Engine.Cursor, Seen, Clear2D, Pixmap.Sized, Exclusive;
    CmdsSeen(e.Mem(), e.Solids(), e.jobs, e.stream);
    Submit2D(e);
  }

  /** A bracket takes the freezer's lock on its pixmap, and gives it back. */
  method Lock(e: Engine, p: Pixmap)
    requires e.Valid() && p in e.all && !p.destroyed
    modifies p`freezerLockcnt, p`locks
    ensures e.Valid() && p.locks == old(p.locks) + 1
  {
    hide Booked, Engine.JobsOk, Engine.Cursor, Count, Engine.Apart;
    assert e.Counted(e.Refs()) && p.Balanced(Count(e.Refs(), p));
    p.freezerLockcnt, p.locks := p.freezerLockcnt + 1, p.locks + 1;
    assert p.Balanced(Count(e.Refs(), p));
  }

  method Unlock(e: Engine, p: Pixmap)
    requires e.Valid() && p in e.all && p.locks > 0
    modifies p`freezerLockcnt, p`locks
    ensures e.Valid() && p.locks == old(p.locks) - 1
  {
    hide Booked, Engine.JobsOk, Engine.Cursor, Count, Engine.Apart;
    assert e.Counted(e.Refs()) && p.Balanced(Count(e.Refs(), p));
    p.freezerLockcnt, p.locks := p.freezerLockcnt - 1, p.locks - 1;
    assert p.Balanced(Count(e.Refs(), p));
  }

  /** What a recorded fill excludes */
  lemma FillFacts(e: Engine, p: Pixmap)
    requires e.Valid() && p in e.all
    ensures p.solidFill ==> !p.scanout && Untouched(e.jobs, p)
    ensures p.solidFill <==> p in e.Solids()
    ensures p.solidFill ==> e.Solids()[p] == p.solidColor
  {
    assert p.solidFill ==> p in e.Solids();
  }

  /** `tegra_exa_prepare_solid_2d` */
  method PrepareSolid(e: Engine, p: Pixmap, c: Color)
    requires e.Valid() && p in e.all && !p.destroyed && e.stream == [] && (e.in2dFlush ==> !p.solidFill)
    modifies e`color, e`optimize, e`cpuAccess, p`freezerLockcnt, p`locks
    ensures e.Valid() && e.FillBracket(p) && e.color == c && (e.in2dFlush ==> !e.optimize)
    ensures p.locks == old(p.locks) + 1 && (e.optimize <==> !e.in2dFlush && !p.scanout)
  {
    hide Engine.Apart, Engine.JobsOk, Engine.Cursor, Engine.Book;
    FillFacts(e, p);
    var busy := IsBusy(e, p);
    e.color := c;
    e.optimize := !(e.in2dFlush || p.scanout);
    e.cpuAccess := !busy;
    Lock(e, p);
  }

  function Full(p: Pixmap): (r: Rect) {
    Rect(0, 0, p.width, p.height)
  }

  /** A fill of the whole pixmap in memory is what was recorded. */
  lemma PerformSeen(e: Engine, p: Pixmap, c: Color)
    requires e.Valid() && p in e.all && p in e.Solids() && e.Solids()[p] == c
    ensures RunCmd(Seen(e.Mem(), e.Solids() - {p}, e.jobs), Fill(p, Full(p), c)) == Seen(e.Mem(), e.Solids(), e.jobs)
  {
    RunJobsShape(e.Mem(), e.jobs, p);
    RunJobsKeeps(e.Mem(), e.jobs, p);
    assert p.Sized();
    assert Filled(p.data, Full(p), c) == Solid(p.data, c);
  }

  /** `tegra_exa_flush_deferred_operations` */
  method Flush(e: Engine, p: Pixmap, reads_: bool, writes: bool)
    requires e.Valid() && p in e.all && !p.destroyed && (!Untouched(e.jobs, p) ==> e.wrap3d == 0)
    modifies e`table, e`jobs, e`curDst, e`timer, e`blockcnt, e`attribs, e`wrap3d, e`in2dFlush, e`stream, e`color,
             e`optimize, e`cpuAccess, e.all`data, e.all`solidFill, e.all`solidColor, e.all`refcnt,
             e.all`freezerLockcnt, e.all`releases, e.all`locks
    ensures e.Valid() && e.Shown() == old(e.Shown()) && e.Locks() == old(e.Locks())
    ensures e.stream == old(e.stream) && e.color == old(e.color) && e.optimize == old(e.optimize)
    ensures e.cpuAccess == old(e.cpuAccess) && e.in2dFlush == old(e.in2dFlush) && e.wrap3d == old(e.wrap3d)
    ensures e.Solids() == if e.in2dFlush then old(e.Solids()) else old(e.Solids()) - {p}
    ensures e.jobs == old(e.jobs) || e.jobs == []
    ensures old(Untouched(e.jobs, p)) ==> e.jobs == old(e.jobs)
    ensures writes ==> Unwritten(e.jobs, p)
    ensures reads_ && writes ==> Untouched(e.jobs, p)
    decreases if e.in2dFlush then 0 else 1, 1
  {
    hide Engine.Valid, Engine.Shown, Unwritten, Untouched;
    Flush2D(e, p);
    Flush3D(e, p, reads_, writes);
  }

  /** `tegra_exa_flush_deferred_2d_operations`: the recorded fill is performed in a fill bracket of its
      own, in which nothing is recorded. */
  method Flush2D(e: Engine, p: Pixmap)
    requires e.Valid() && p in e.all && !p.destroyed
    modifies e`table, e`jobs, e`curDst, e`timer, e`blockcnt, e`attribs, e`wrap3d, e`in2dFlush, e`stream, e`color,
             e`optimize, e`cpuAccess, e.all`data, e.all`solidFill, e.all`solidColor, e.all`refcnt,
             e.all`freezerLockcnt, e.all`releases, e.all`locks
    ensures e.Valid() && e.Shown() == old(e.Shown()) && e.Locks() == old(e.Locks())
    ensures e.stream == old(e.stream) && e.color == old(e.color) && e.optimize == old(e.optimize)
    ensures e.cpuAccess == old(e.cpuAccess) && e.in2dFlush == old(e.in2dFlush) && e.wrap3d == old(e.wrap3d)
    ensures e.Solids() == if e.in2dFlush then old(e.Solids()) else old(e.Solids()) - {p}
    ensures e.jobs == old(e.jobs)
    decreases if e.in2dFlush then 0 else 1, 0
  {
    hide Engine.Valid, Engine.Shown, Unwritten, Untouched;
    if e.in2dFlush {
      return;
    }
    FillFacts(e, p);
    e.in2dFlush := true;
    if p.solidFill {
      PerformFill(e, p);
    }
    e.in2dFlush := false;
  }

  /** `tegra_exa_perform_deferred_solid_fill`, in a context of its own: the stream and the parameters of
      the bracket in progress come back afterwards. */
  method PerformFill(e: Engine, p: Pixmap)
    requires e.Valid() && p in e.all && !p.destroyed && e.in2dFlush && p.solidFill
    modifies e`table, e`jobs, e`curDst, e`timer, e`blockcnt, e`attribs, e`wrap3d, e`in2dFlush, e`stream, e`color,
             e`optimize, e`cpuAccess, e.all`data, e.all`solidFill, e.all`solidColor, e.all`refcnt,
             e.all`freezerLockcnt, e.all`releases, e.all`locks
    ensures e.Valid() && e.Shown() == old(e.Shown()) && e.Locks() == old(e.Locks())
    ensures e.stream == old(e.stream) && e.color == old(e.color) && e.optimize == old(e.optimize)
    ensures e.cpuAccess == old(e.cpuAccess) && e.in2dFlush && e.wrap3d == old(e.wrap3d)
    ensures e.Solids() == old(e.Solids()) - {p} && e.jobs == old(e.jobs)
    decreases 0, 4
  {
    hide Engine.Valid, Engine.Shown, Engine.Solids, Engine.Screen, Untouched, RunCmd;
    var save, saveColor, saveOptimize, saveAccess := e.stream, e.color, e.optimize, e.cpuAccess;
    var color := p.solidColor;
    FillFacts(e, p);
    ForgetFillSeen(e, p);
    Context(e, [], color, false, false);
    NothingWaits(e);
    FillPixmap(e, p, color);
    NothingWaits(e);
    Context(e, save, saveColor, saveOptimize, saveAccess);
  }

  /** Without commands in the stream, the screen is what is shown. */
  lemma NothingWaits(e: Engine)
    requires e.stream == []
    ensures e.Screen() == e.Shown()
  {
  }

  /** Another drawing context becomes current. */
  method Context(e: Engine, stream: seq<Cmd<Pixmap?>>, color: Color, optimize: bool, cpuAccess: bool)
    modifies e`stream, e`color, e`optimize, e`cpuAccess
    ensures e.stream == stream && e.color == color && e.optimize == optimize && e.cpuAccess == cpuAccess
  {
    e.stream, e.color, e.optimize, e.cpuAccess := stream, color, optimize, cpuAccess;
  }

  method ForgetFillSeen(e: Engine, p: Pixmap)
    requires e.Valid() && p in e.all && p.solidFill
    modifies p`solidFill
    ensures e.Valid() && e.Solids() == old(e.Solids()) - {p} && !p.solidFill
    ensures RunCmd(e.Shown(), Fill(p, Full(p), p.solidColor)) == old(e.Shown())
  {
    hide Engine.Valid, Seen, RunCmd;
    FillFacts(e, p);
    PerformSeen(e, p, p.solidColor);
    ForgetFill(e, p);
  }

  method ForgetFill(e: Engine, p: Pixmap)
    requires e.Valid() && p in e.all
    modifies p`solidFill
    ensures e.Valid() && e.Solids() == old(e.Solids()) - {p} && !p.solidFill
  {
    hide Engine.Book, Engine.JobsOk, Engine.Cursor, Untouched;
    DropFill(e, p);
  }

  /** `tegra_exa_fill_pixmap_data` during a flush */
  method FillPixmap(e: Engine, p: Pixmap, c: Color)
    requires e.Valid() && p in e.all && !p.destroyed && e.in2dFlush && !p.solidFill && e.stream == []
    requires Untouched(e.jobs, p)
    modifies e`table, e`jobs, e`curDst, e`timer, e`blockcnt, e`attribs, e`wrap3d, e`in2dFlush, e`stream, e`color,
             e`optimize, e`cpuAccess, e.all`data, e.all`solidFill, e.all`solidColor, e.all`refcnt,
             e.all`freezerLockcnt, e.all`releases, e.all`locks
    ensures e.Valid() && e.stream == [] && e.Locks() == old(e.Locks())
    ensures e.Screen() == RunCmd(old(e.Screen()), Fill(p, Full(p), c))
    ensures e.in2dFlush && e.wrap3d == old(e.wrap3d) && e.Solids() == old(e.Solids()) && e.jobs == old(e.jobs)
    decreases 0, 3
  {
    hide Engine.Valid, Engine.Screen, Untouched;
    var accel: bool := *;
    if accel {
      PrepareSolid(e, p, c);
      SolidOp(e, p, Full(p));
      DoneSolid(e, p);
    } else {
      CpuFill(e, p, Full(p), c);
    }
  }

  /** The CPU writes a rectangle at once; rectangles of the same colour may be waiting in the stream. */
  method CpuFill(e: Engine, p: Pixmap, r: Rect, c: Color)
    requires e.Valid() && p in e.all && !p.solidFill && Untouched(e.jobs, p) && AllFill(e.stream, p, c)
    modifies p`data
    ensures e.Valid() && e.Screen() == RunCmd(old(e.Screen()), Fill(p, r, c)) && e.Solids() == old(e.Solids())
  {
    hide Engine.Book, Engine.JobsOk, Engine.Cursor, Seen, Untouched, Exclusive, Filled, RunCmds, AllFill, Pixmap.Sized;
    FillFacts(e, p);
    PictureSeen(e.Mem(), e.Solids(), e.jobs, p, Filled(p.data, r, c));
    FillOvertakes(Seen(e.Mem(), e.Solids(), e.jobs), e.stream, p, r, c);
    WritePicture(e, p, Filled(p.data, r, c));
  }

  /** `tegra_exa_cancel_or_flush_deferred_3d_operations`: a single job that only draws what is about to
      be overwritten is dropped, if what was submitted before is `completed`. */
  method CancelOrFlush3D(e: Engine, p: Pixmap, completed: bool)
    requires e.Valid() && p in e.all && (!Untouched(e.jobs, p) ==> e.wrap3d == 0)
    modifies e`table, e`jobs, e`curDst, e`timer, e`blockcnt, e`attribs, e`wrap3d, e.all`data, e.all`refcnt,
             e.all`freezerLockcnt, e.all`releases
    ensures e.Valid() && e.Solids() == old(e.Solids()) && e.wrap3d == old(e.wrap3d) && e.Locks() == old(e.Locks())
    ensures SameBut(old(e.Shown()), e.Shown(), p) && Untouched(e.jobs, p)
    ensures e.jobs == old(e.jobs) || e.jobs == []
    ensures old(Untouched(e.jobs, p)) ==> e.jobs == old(e.jobs)
    ensures completed && old(|e.jobs|) == 1 && !old(Unwritten(e.jobs, p)) ==> e.jobs == [] && e.Mem() == old(e.Mem())
  {
    hide Engine.Valid, Engine.Shown, Engine.Solids, Untouched, Unwritten;
    ShownKeys(e, p);
    if |e.jobs| == 1 && completed {
      var canceled := OnlyWriter(e, p);
      if canceled {
        CancelOnly(e, p);
        return;
      }
    }
    Flush3D(e, p, true, true);
  }

  /** Whether the only queued job writes the pixmap */
  method OnlyWriter(e: Engine, p: Pixmap) returns (found: bool)
    requires e.Valid() && p in e.all
    ensures found <==> !Unwritten(e.jobs, p)
    ensures found ==> !Untouched(e.jobs, p)
  {
    hide Engine.Apart, Engine.Cursor, Booked;
    FlagsTell(e.table, e.jobs, p);
    found := false;
    var i := 0;
    while i < |e.table| && !found
      invariant i <= |e.table| && (found ==> !Unwritten(e.jobs, p))
      invariant !found ==> forall k {:trigger e.table[k]} :: 0 <= k < i ==> e.table[k].pixmap != p || !e.table[k].write
    {
      found := e.table[i].pixmap == p && e.table[i].write;
      i := i + 1;
    }
    if found { WrittenTouched(e.jobs, p); }
  }

  lemma WrittenTouched(js: seq<Job<Pixmap?>>, p: Pixmap)
    requires !Unwritten(js, p)
    ensures !Untouched(js, p)
  {
    var i :| 0 <= i < |js| && js[i].dst == p;
    assert js[i].Touches(p);
  }

  lemma ShownKeys(e: Engine, p: Pixmap)
    requires p in e.all
    ensures p in e.Shown() && SameBut(e.Shown(), e.Shown(), p)
  {
  }

  method CancelOnly(e: Engine, p: Pixmap)
    requires e.Valid() && p in e.all && |e.jobs| == 1 && !Unwritten(e.jobs, p)
    modifies e`table, e`jobs, e`curDst, e`timer, e`blockcnt, e`attribs, e.all`refcnt, e.all`freezerLockcnt,
             e.all`releases
    ensures e.Valid() && e.jobs == [] && SameBut(old(e.Shown()), e.Shown(), p)
    ensures e.Solids() == old(e.Solids()) && e.Locks() == old(e.Locks()) && Untouched(e.jobs, p)
  {
    hide Engine.Book, Engine.JobsOk, Engine.Cursor, Seen;
    FillFacts(e, p);
    if p.solidFill { UntouchedUnwritten(e.jobs, p); }
    assert e.Solids() - {p} == e.Solids();
    DropSeen(e.Mem(), e.Solids(), e.jobs, p);
    NothingQueued(e.Solids());
    Reset(e, e.Refs());
  }

  /** `tegra_exa_cancel_deferred_operations` */
  method Cancel(e: Engine, p: Pixmap, completed: bool)
    requires e.Valid() && p in e.all && (!Untouched(e.jobs, p) ==> e.wrap3d == 0)
    modifies e`table, e`jobs, e`curDst, e`timer, e`blockcnt, e`attribs, e`wrap3d, e.all`data, e.all`refcnt,
             e.all`freezerLockcnt, e.all`releases, p`solidFill
    ensures e.Valid() && e.Solids() == old(e.Solids()) - {p} && e.wrap3d == old(e.wrap3d) && e.Locks() == old(e.Locks())
    ensures SameBut(old(e.Shown()), e.Shown(), p) && Untouched(e.jobs, p) && !p.solidFill
    ensures e.jobs == old(e.jobs) || e.jobs == []
    ensures completed && old(|e.jobs|) == 1 && !old(Unwritten(e.jobs, p)) ==> e.jobs == [] && e.Mem() == old(e.Mem())
    ensures old(Untouched(e.jobs, p)) ==> e.jobs == old(e.jobs)
  {
    hide Engine.Valid, Seen, Untouched;
    CancelOrFlush3D(e, p, completed);
    UnrecordSeen(e.Mem(), e.Solids(), e.jobs, p);
    ForgetFill(e, p);
  }

  ghost predicate Within(img: Image, r: Rect) {
    forall pt {:trigger pt in img} :: pt in img ==> r.Has(pt)
  }

  /** Recording a fill of the whole pixmap, after whatever was pending on it was dropped. */
  lemma RecordScreen(s0: Screen<Pixmap?>, s1: Screen<Pixmap?>, cs: seq<Cmd<Pixmap?>>, p: Pixmap, c: Color, r: Rect)
    requires AllFill(cs, p, c) && SameBut(s0, s1, p) && Within(s0[p], r)
    ensures RunCmds(s1[p := Solid(s1[p], c)], cs) == RunCmd(RunCmds(s0, cs), Fill(p, r, c))
  {
    hide RunCmds;
    assert Solid(s1[p], c) == Solid(s0[p], c);
    assert s1[p := Solid(s1[p], c)] == s0[p := Solid(s0[p], c)];
    SolidSwallows(s0, cs, p, c);
    CoverFill(s0[p], RunCmds(s0, cs)[p], r, c);
  }

  lemma CoverFill(a: Image, b: Image, r: Rect, c: Color)
    requires Solid(a, c) == Solid(b, c) && Within(a, r)
    ensures Filled(b, r, c) == Solid(b, c)
  {
    forall pt | pt in b ensures r.Has(pt) {
      assert pt in Solid(b, c) && pt in Solid(a, c);
    }
  }

  /** A rectangle in the colour that is recorded shows nothing. */
  lemma SameColourUnseen(s: Screen<Pixmap?>, cs: seq<Cmd<Pixmap?>>, p: Pixmap, c: Color, r: Rect)
    requires AllFill(cs, p, c) && p in s && s[p] == Solid(s[p], c)
    ensures RunCmd(RunCmds(s, cs), Fill(p, r, c)) == RunCmds(s, cs)
  {
    SolidSwallows(s, cs, p, c);
    assert s[p := Solid(s[p], c)] == s;
    FillsCommute(RunCmds(s, cs)[p], r, r, c);
  }

  lemma ShownSolid(e: Engine, p: Pixmap)
    requires e.Valid() && p in e.all
    ensures p in e.Shown() && e.Shown()[p].Keys == p.data.Keys
    ensures p.solidFill ==> e.Shown()[p] == Solid(e.Shown()[p], p.solidColor)
    ensures Within(e.Shown()[p], Full(p))
  {
    RunJobsShape(e.Mem(), e.jobs, p);
    assert p.Sized() && (p.solidFill ==> p in e.Solids());
  }

  /** `tegra_exa_solid_2d` with `tegra_exa_optimize_solid_op`. Whether a rectangle counts as small is
      arbitrary. */
  method SolidOp(e: Engine, p: Pixmap, r: Rect)
    requires e.Valid() && e.FillBracket(p) && (!Untouched(e.jobs, p) ==> e.wrap3d == 0)
    modifies e`table, e`jobs, e`curDst, e`timer, e`blockcnt, e`attribs, e`wrap3d, e`in2dFlush, e`stream, e`color,
             e`optimize, e`cpuAccess, e.all`data, e.all`solidFill, e.all`solidColor, e.all`refcnt,
             e.all`freezerLockcnt, e.all`releases, e.all`locks
    ensures e.Valid() && e.FillBracket(p) && e.Screen() == RunCmd(old(e.Screen()), Fill(p, r, e.color))
    ensures e.color == old(e.color) && e.optimize == old(e.optimize) && e.in2dFlush == old(e.in2dFlush)
    ensures e.wrap3d == old(e.wrap3d) && e.Locks() == old(e.Locks())
    ensures e.Solids() - {p} == old(e.Solids()) - {p} && (!e.optimize ==> e.Solids() == old(e.Solids()))
    ensures e.jobs == old(e.jobs) || e.jobs == []
    ensures old(Untouched(e.jobs, p)) ==> e.jobs == old(e.jobs)
    ensures FillShown(old(e.Screen()), e.Screen(), p, r.x1, r.y1, r.x2, r.y2, e.color)
    ensures e.optimize && r == Rect(0, 0, p.width, p.height) ==>
              p.solidFill && p.solidColor == e.color && e.stream == old(e.stream)
    decreases if e.in2dFlush then 0 else 1, 2
  {
    hide Engine.Valid, Engine.Shown, Engine.Solids, Untouched, RunCmd, RunCmds, FillShown, SameBut;
    ShownSolid(e, p);
    FillsKeep(e.Shown(), e.stream, p, e.color);
    FillIs(e.Screen(), p, r, e.color);
    var small: bool := *;
    if e.optimize && r == Full(p) {
      e.cpuAccess := false;
      RecordOp(e, p, r);
      return;
    }
    if e.optimize && p.solidFill && p.solidColor == e.color && small {
      SameColourUnseen(e.Shown(), e.stream, p, e.color, r);
      return;
    }
    DrawOp(e, p, r, small);
  }

  /** The whole pixmap: recorded, not drawn. */
  method RecordOp(e: Engine, p: Pixmap, r: Rect)
    requires e.Valid() && e.FillBracket(p) && (!Untouched(e.jobs, p) ==> e.wrap3d == 0) && e.optimize && r == Full(p)
    requires !e.cpuAccess
    modifies e`table, e`jobs, e`curDst, e`timer, e`blockcnt, e`attribs, e`wrap3d, e.all`data, e.all`solidFill,
             e.all`solidColor, e.all`refcnt, e.all`freezerLockcnt, e.all`releases
    ensures e.Valid() && e.FillBracket(p) && e.Screen() == RunCmd(old(e.Screen()), Fill(p, r, e.color))
    ensures e.wrap3d == old(e.wrap3d) && e.Locks() == old(e.Locks())
    ensures e.Solids() - {p} == old(e.Solids()) - {p}
    ensures e.jobs == old(e.jobs) || e.jobs == []
    ensures old(Untouched(e.jobs, p)) ==> e.jobs == old(e.jobs)
    ensures p.solidFill && p.solidColor == e.color
  {
    hide Engine.Valid, Engine.Shown, Engine.Solids, Untouched, RunCmd, RunCmds, SameBut, AllFill, Within,
         Engine.Mem, Solid, Full, Unwritten;
    ShownSolid(e, p);
    ghost var s0 := e.Shown();
    var completed: bool := *;
    Cancel(e, p, completed);
    RecordScreen(s0, e.Shown(), e.stream, p, e.color, r);
    Record(e, p, e.color);
    assert p.locks == e.Locks()[p];
  }

  method Record(e: Engine, p: Pixmap, c: Color)
    requires e.Valid() && p in e.all && Untouched(e.jobs, p) && !p.scanout
    modifies p`solidFill, p`solidColor
    ensures e.Valid() && e.Solids() == old(e.Solids())[p := c] && p.solidFill && p.solidColor == c
    ensures p in old(e.Shown()) && e.Shown() == old(e.Shown())[p := Solid(old(e.Shown())[p], c)]
  {
    hide Engine.Book, Engine.JobsOk, Engine.Cursor, Seen, Untouched;
    RecordSeen(e.Mem(), e.Solids(), e.jobs, p, c);
    RecordFill(e, p, c);
  }

  /** Part of the pixmap: drawn by the CPU, or left to the hardware. */
  method DrawOp(e: Engine, p: Pixmap, r: Rect, small: bool)
    requires e.Valid() && e.FillBracket(p) && (!Untouched(e.jobs, p) ==> e.wrap3d == 0)
    modifies e`table, e`jobs, e`curDst, e`timer, e`blockcnt, e`attribs, e`wrap3d, e`in2dFlush, e`stream, e`color,
             e`optimize, e`cpuAccess, e.all`data, e.all`solidFill, e.all`solidColor, e.all`refcnt,
             e.all`freezerLockcnt, e.all`releases, e.all`locks
    ensures e.Valid() && e.FillBracket(p) && e.Screen() == RunCmd(old(e.Screen()), Fill(p, r, e.color))
    ensures e.color == old(e.color) && e.optimize == old(e.optimize) && e.in2dFlush == old(e.in2dFlush)
    ensures e.wrap3d == old(e.wrap3d) && e.Locks() == old(e.Locks())
    ensures e.Solids() - {p} == old(e.Solids()) - {p} && (!e.optimize ==> e.Solids() == old(e.Solids()))
    ensures e.jobs == old(e.jobs) || e.jobs == []
    ensures old(Untouched(e.jobs, p)) ==> e.jobs == old(e.jobs)
    decreases if e.in2dFlush then 0 else 1, 2, 0
  {
    hide Engine.Valid, Engine.Shown, RunCmd, RunCmds, Untouched, AllFill;
    FillFacts(e, p);
    LocksHold(e, p);
    if e.optimize && p.solidFill {
      Flush(e, p, true, true);
      FillFacts(e, p);
      assert p.locks == e.Locks()[p];
      if e.cpuAccess {
        var busy := Busy(e, p);
        if busy { e.cpuAccess := false; }
      }
    }
    if e.cpuAccess && small {
      CpuFill(e, p, r, e.color);
    } else {
      RunCmdsAppend(e.Shown(), e.stream, Fill(p, r, e.color));
      PushFill(e.stream, p, e.color, r);
      e.stream := e.stream + [Fill(p, r, e.color)];
    }
  }

  lemma PushFill(cs: seq<Cmd<Pixmap?>>, p: Pixmap, c: Color, r: Rect)
    requires AllFill(cs, p, c)
    ensures AllFill(cs + [Fill(p, r, c)], p, c)
  {
  }

  method Busy(e: Engine, p: Pixmap) returns (busy: bool)
    requires e.Valid()
    ensures !busy ==> Untouched(e.jobs, p)
  {
    busy := IsBusy(e, p);
  }

  /** `tegra_exa_done_solid_2d` with `tegra_exa_complete_solid_fill_optimization` */
  method DoneSolid(e: Engine, p: Pixmap)
    requires e.Valid() && e.FillBracket(p) && (!Untouched(e.jobs, p) ==> e.wrap3d == 0)
    modifies e`table, e`jobs, e`curDst, e`timer, e`blockcnt, e`attribs, e`wrap3d, e`in2dFlush, e`stream, e`color,
             e`optimize, e`cpuAccess, e.all`data, e.all`solidFill, e.all`solidColor, e.all`refcnt,
             e.all`freezerLockcnt, e.all`releases, e.all`locks
    ensures e.Valid() && e.stream == [] && e.Screen() == old(e.Screen())
    ensures e.in2dFlush == old(e.in2dFlush) && e.wrap3d == old(e.wrap3d)
    ensures e.Locks() == old(e.Locks()[p := p.locks - 1])
    ensures e.Solids() - {p} == old(e.Solids()) - {p} && (!old(e.optimize) ==> e.Solids() == old(e.Solids()))
    ensures e.jobs == old(e.jobs) || e.jobs == []
    ensures old(Untouched(e.jobs, p)) ==> e.jobs == old(e.jobs)
    ensures old(e.stream) == [] ==> p.solidFill == old(p.solidFill) && p.solidColor == old(p.solidColor)
    decreases if e.in2dFlush then 0 else 1, 2
  {
    hide Engine.Valid, Engine.Shown, Engine.Solids, Untouched, Clear2D, CmdOk, AllFill;
    FillFacts(e, p);
    LocksHold(e, p);
    if |e.stream| > 0 {
      Flush(e, p, true, true);
      assert p.locks == e.Locks()[p];
    }
    e.optimize := false;
    Unlock(e, p);
    if |e.stream| > 0 {
      FillsClear(e.stream, p, e.color, e.Solids(), e.jobs, e.all);
      Finish2D(e);
    }
  }

  lemma LocksHold(e: Engine, p: Pixmap)
    requires e.Valid() && p in e.all
    ensures p.locks > 0 ==> !p.destroyed
  {
    assert p.Balanced(Count(e.Refs(), p));
  }

  lemma FillsClear(cs: seq<Cmd<Pixmap?>>, p: Pixmap, c: Color, solids: map<Pixmap?, Color>, js: seq<Job<Pixmap?>>,
                   all: set<Pixmap>)
    requires AllFill(cs, p, c) && p !in solids && Untouched(js, p) && p in all
    ensures forall i {:trigger cs[i]} :: 0 <= i < |cs| ==> CmdOk(cs[i], all) && Clear2D(cs[i], solids, js)
  {
  }

  // ---- Copies -------------------------------------------------------------------------------------

  ghost predicate Reaches(c: Cmd<Pixmap?>, img: Image, src: Image)
    requires c.Blit?
  {
    forall pt {:trigger pt in img} :: pt in img && c.rect.Has(pt) ==> Point(pt.x - c.dx, pt.y - c.dy) in src
  }

  /** `tegra_exa_prepare_copy_2d` with `tegra_exa_prepare_optimized_copy`. `hint` is the one about transparent
      pixels, and `began` says whether the stream of a fill bracket can be begun. */
  method PrepareCopy(e: Engine, src: Pixmap, dst: Pixmap, hint: bool, began: bool)
    requires e.Valid() && src in e.all && dst in e.all && src != dst && !src.destroyed && !dst.destroyed
    requires e.stream == [] && !e.in2dFlush && e.wrap3d == 0
    modifies e`color, e`optimize, e`cpuAccess, e`copyOptimize, src`freezerLockcnt, src`locks, dst`freezerLockcnt,
             dst`locks
    ensures e.Valid() && e.CopyBracket(dst, src)
    ensures src.locks == old(src.locks) + 1 && dst.locks == old(dst.locks) + if e.Converted(src) then 2 else 1
    ensures e.copyOptimize <==> if src.solidFill then began else dst.solidFill || hint
    ensures e.Converted(src) ==> (e.optimize <==> !dst.scanout)
  {
    hide Engine.Valid, Untouched;
    var opt := src.solidFill || dst.solidFill || hint;
    if opt && src.solidFill {
      if began {
        PrepareSolid(e, dst, src.solidColor);
      } else {
        opt := false;
      }
    }
    e.copyOptimize := opt;
    Lock(e, src);
    Lock(e, dst);
  }

  lemma BlitOfOneColour(s: Screen<Pixmap?>, c: Cmd<Pixmap?>, col: Color)
    requires c.Blit? && c.dst in s && c.src in s && s[c.src] == Solid(s[c.src], col) && Reaches(c, s[c.dst], s[c.src])
    ensures RunCmd(s, c) == RunCmd(s, Fill(c.dst, c.rect, col))
  {
    var a, b := Blitted(s[c.dst], s[c.src], c.dx, c.dy, c.rect), Filled(s[c.dst], c.rect, col);
    forall pt | pt in a ensures a[pt] == b[pt] {
      assert pt in s[c.dst];
      if c.rect.Has(pt) { assert s[c.src][Point(pt.x - c.dx, pt.y - c.dy)] == col; }
    }
    assert a == b;
  }

  lemma {:induction false} FillsKeep(s: Screen<Pixmap?>, cs: seq<Cmd<Pixmap?>>, p: Pixmap, c: Color)
    requires AllFill(cs, p, c) && p in s
    ensures RunCmds(s, cs) == s[p := RunCmds(s, cs)[p]] && RunCmds(s, cs)[p].Keys == s[p].Keys
  {
    if cs != [] { FillsKeep(s, cs[..|cs| - 1], p, c); }
  }

  /** On the screen, copying from a pixmap with a recorded fill is filling. */
  lemma ConvertedSeen(e: Engine, dst: Pixmap, src: Pixmap, c: Cmd<Pixmap?>)
    requires e.Valid() && e.CopyBracket(dst, src) && e.Converted(src)
    requires c.Blit? && c.dst == dst && c.src == src && Reaches(c, dst.data, src.data)
    ensures RunCmd(e.Screen(), c) == RunCmd(e.Screen(), Fill(dst, c.rect, src.solidColor))
  {
    hide Engine.Valid, Engine.Shown, RunCmd;
    ShownSolid(e, src);
    ShownSolid(e, dst);
    FillsKeep(e.Shown(), e.stream, dst, src.solidColor);
    BlitOfOneColour(e.Screen(), c, src.solidColor);
  }

  /** What the copy shows, in coordinates */
  lemma CopyIs(e: Engine, dst: Pixmap, src: Pixmap, c: Cmd<Pixmap?>)
    requires e.Valid() && dst in e.all && src in e.all
    requires c.Blit? && c.dst == dst && c.src == src && Reaches(c, dst.data, src.data)
    ensures var m := e.Screen();
            CopyShown(m, RunCmd(m, c), dst, src, c.dx, c.dy, c.rect.x1, c.rect.y1, c.rect.x2, c.rect.y2)
  {
    hide Engine.Valid, Engine.Shown, CopyShown;
    ShownSolid(e, src);
    ShownSolid(e, dst);
    CmdsShape(e.Shown(), e.stream, src);
    CmdsShape(e.Shown(), e.stream, dst);
    assert forall pt {:trigger pt in e.Screen()[dst]} ::
      pt in e.Screen()[dst] ==> pt in dst.data.Keys && pt in dst.data;
    BlitIs(e.Screen(), c);
  }

  lemma {:induction false} CmdsShape(m: Screen<Pixmap?>, cs: seq<Cmd<Pixmap?>>, p: Pixmap?)
    requires p in m
    ensures p in RunCmds(m, cs) && RunCmds(m, cs)[p].Keys == m[p].Keys
  {
    if cs != [] { CmdsShape(m, cs[..|cs| - 1], p); }
  }

  /** `tegra_exa_copy_2d` with `tegra_exa_optimize_copy_op` */
  method CopyOp(e: Engine, dst: Pixmap, src: Pixmap, c: Cmd<Pixmap?>)
    requires e.Valid() && e.CopyBracket(dst, src)
    requires c.Blit? && c.dst == dst && c.src == src && Reaches(c, dst.data, src.data)
    modifies e`table, e`jobs, e`curDst, e`timer, e`blockcnt, e`attribs, e`wrap3d, e`in2dFlush, e`stream, e`color,
             e`optimize, e`cpuAccess, e.all`data, e.all`solidFill, e.all`solidColor, e.all`refcnt,
             e.all`freezerLockcnt, e.all`releases, e.all`locks
    ensures e.Valid() && e.CopyBracket(dst, src) && e.Screen() == RunCmd(old(e.Screen()), c)
    ensures e.Locks() == old(e.Locks()) && e.Converted(src) == old(e.Converted(src))
    ensures e.jobs == old(e.jobs) || e.jobs == []
    ensures CopyShown(old(e.Screen()), e.Screen(), dst, src, c.dx, c.dy, c.rect.x1, c.rect.y1, c.rect.x2, c.rect.y2)
    ensures var full := c.rect == Rect(0, 0, dst.width, dst.height);
            if e.Converted(src) then
              && (old(dst.solidFill && dst.solidColor == src.solidColor) ==>
                    dst.solidFill && e.stream == old(e.stream) && e.jobs == old(e.jobs))
              && (full && e.optimize ==> dst.solidFill && dst.solidColor == src.solidColor)
            else
              e.stream == old(e.stream) + [c] && (full && e.copyOptimize ==> !dst.solidFill && Untouched(e.jobs, dst))
  {
    hide Engine.Valid, Engine.Shown, RunCmd, RunCmds, Untouched, Reaches, CopyShown;
    FillFacts(e, src);
    CopyIs(e, dst, src, c);
    if e.Converted(src) {
      ConvertedOp(e, dst, src, c);
    } else if e.copyOptimize && c.rect == Full(dst) {
      CoverOp(e, dst, src, c);
    } else {
      PushBlit(e.stream, c);
      RunCmdsAppend(e.Shown(), e.stream, c);
      e.stream := e.stream + [c];
    }
  }

  lemma PushBlit(cs: seq<Cmd<Pixmap?>>, c: Cmd<Pixmap?>)
    requires c.Blit? && AllBlit(cs, c.dst, c.src)
    ensures AllBlit(cs + [c], c.dst, c.src)
  {
  }

  method ConvertedOp(e: Engine, dst: Pixmap, src: Pixmap, c: Cmd<Pixmap?>)
    requires e.Valid() && e.CopyBracket(dst, src) && e.Converted(src)
    requires c.Blit? && c.dst == dst && c.src == src && Reaches(c, dst.data, src.data)
    modifies e`table, e`jobs, e`curDst, e`timer, e`blockcnt, e`attribs, e`wrap3d, e`in2dFlush, e`stream, e`color,
             e`optimize, e`cpuAccess, e.all`data, e.all`solidFill, e.all`solidColor, e.all`refcnt,
             e.all`freezerLockcnt, e.all`releases, e.all`locks
    ensures e.Valid() && e.CopyBracket(dst, src) && e.Screen() == RunCmd(old(e.Screen()), c)
    ensures e.Locks() == old(e.Locks()) && e.Converted(src)
    ensures old(dst.solidFill && dst.solidColor == src.solidColor) ==>
              dst.solidFill && e.stream == old(e.stream) && e.jobs == old(e.jobs)
    ensures c.rect == Rect(0, 0, dst.width, dst.height) && e.optimize ==>
              dst.solidFill && dst.solidColor == src.solidColor
    ensures e.jobs == old(e.jobs) || e.jobs == []
  {
    hide Engine.Valid, Engine.Shown, RunCmd, RunCmds, Untouched, Reaches, AllFill;
    ConvertedSeen(e, dst, src, c);
    FillFacts(e, src);
    if dst.solidFill && dst.solidColor == src.solidColor {
      ShownSolid(e, dst);
      SameColourUnseen(e.Shown(), e.stream, dst, e.color, c.rect);
    } else {
      ghost var solids := e.Solids();
      SolidOp(e, dst, c.rect);
      assert dst.locks == e.Locks()[dst] && src.locks == e.Locks()[src];
      assert src in e.Solids() - {dst} && (e.Solids() - {dst})[src] == solids[src];
      FillFacts(e, src);
    }
  }

  /** A copy over the whole destination cancels what is pending there. */
  method CoverOp(e: Engine, dst: Pixmap, src: Pixmap, c: Cmd<Pixmap?>)
    requires e.Valid() && e.CopyBracket(dst, src) && !e.Converted(src) && c.rect == Full(dst)
    requires c.Blit? && c.dst == dst && c.src == src && Reaches(c, dst.data, src.data)
    modifies e`table, e`jobs, e`curDst, e`timer, e`blockcnt, e`attribs, e`wrap3d, e`stream, e.all`data, e.all`refcnt,
             e.all`freezerLockcnt, e.all`releases, dst`solidFill
    ensures e.Valid() && e.CopyBracket(dst, src) && e.Screen() == RunCmd(old(e.Screen()), c)
    ensures e.Locks() == old(e.Locks()) && !e.Converted(src)
    ensures e.stream == old(e.stream) + [c] && !dst.solidFill && Untouched(e.jobs, dst)
    ensures e.jobs == old(e.jobs) || e.jobs == []
  {
    hide Engine.Valid, Engine.Shown, RunCmd, RunCmds, Untouched, Reaches, SameBut, AllBlit;
    FullCovers(e, dst, src, c);
    ghost var s0 := e.Shown();
    FillFacts(e, src);
    var completed: bool := *;
    Cancel(e, dst, completed);
    CoverHides(s0, e.Shown(), e.stream, c);
    PushBlit(e.stream, c);
    RunCmdsAppend(e.Shown(), e.stream, c);
    e.stream := e.stream + [c];
  }

  lemma FullCovers(e: Engine, dst: Pixmap, src: Pixmap, c: Cmd<Pixmap?>)
    requires e.Valid() && dst in e.all && src in e.all && c.Blit? && c.dst == dst && c.src == src && c.rect == Full(dst)
    requires Reaches(c, dst.data, src.data)
    ensures dst in e.Shown() && Covers(c, e.Shown()[dst], Pic(e.Shown(), src))
  {
    ShownSolid(e, src);
    ShownSolid(e, dst);
  }

  /** `tegra_exa_complete_copy_optimization`, before the locks are given back */
  method SettleCopy(e: Engine, dst: Pixmap, src: Pixmap)
    requires e.Valid() && e.CopyBracket(dst, src)
    modifies e`table, e`jobs, e`curDst, e`timer, e`blockcnt, e`attribs, e`wrap3d, e`in2dFlush, e`stream, e`color,
             e`optimize, e`cpuAccess, e.all`data, e.all`solidFill, e.all`solidColor, e.all`refcnt,
             e.all`freezerLockcnt, e.all`releases, e.all`locks
    ensures e.Valid() && e.Screen() == old(e.Screen()) && !e.in2dFlush && e.wrap3d == 0
    ensures e.Locks() == if old(e.Converted(src)) then old(e.Locks()[dst := dst.locks - 1]) else old(e.Locks())
    ensures forall i {:trigger e.stream[i]} :: 0 <= i < |e.stream| ==>
              CmdOk(e.stream[i], e.all) && Clear2D(e.stream[i], e.Solids(), e.jobs)
    ensures e.jobs == old(e.jobs) || e.jobs == []
  {
    hide Engine.Valid, Engine.Shown, RunCmds, Untouched, AllFill, AllBlit, Clear2D, CmdOk;
    LocksHold(e, src);
    LocksHold(e, dst);
    if e.Converted(src) {
      DoneSolid(e, dst);
    } else if |e.stream| > 0 {
      Flush(e, src, false, true);
      Flush(e, dst, true, true);
      BlitsClear(e.stream, dst, src, e.Solids(), e.jobs, e.all);
    }
  }

  /** `tegra_exa_done_copy_2d` */
  method DoneCopy(e: Engine, dst: Pixmap, src: Pixmap)
    requires e.Valid() && e.CopyBracket(dst, src)
    modifies e`table, e`jobs, e`curDst, e`timer, e`blockcnt, e`attribs, e`wrap3d, e`in2dFlush, e`stream, e`color,
             e`optimize, e`cpuAccess, e`copyOptimize, e.all`data, e.all`solidFill, e.all`solidColor, e.all`refcnt,
             e.all`freezerLockcnt, e.all`releases, e.all`locks
    ensures e.Valid() && e.stream == [] && e.Screen() == old(e.Screen()) && !e.in2dFlush && e.wrap3d == 0
    ensures e.Locks() == old(e.Locks()[src := src.locks - 1][dst := dst.locks - if e.Converted(src) then 2 else 1])
    ensures e.jobs == old(e.jobs) || e.jobs == []
  {
    hide Engine.Valid, Engine.Shown, Engine.Screen, RunCmds, Clear2D, CmdOk, AllFill, AllBlit, Engine.FillBracket;
    SettleCopy(e, dst, src);
    assert dst.locks == e.Locks()[dst] && src.locks == e.Locks()[src];
    e.copyOptimize := false;
    Unlock(e, src);
    Unlock(e, dst);
    if |e.stream| > 0 {
      Finish2D(e);
    }
  }

  lemma BlitsClear(cs: seq<Cmd<Pixmap?>>, dst: Pixmap, src: Pixmap, solids: map<Pixmap?, Color>, js: seq<Job<Pixmap?>>,
                   all: set<Pixmap>)
    requires AllBlit(cs, dst, src) && dst !in solids && src !in solids && Untouched(js, dst) && Unwritten(js, src)
    requires dst in all && src in all
    ensures forall i {:trigger cs[i]} :: 0 <= i < |cs| ==> CmdOk(cs[i], all) && Clear2D(cs[i], solids, js)
  {
  }

  // ---- 3D jobs ------------------------------------------------------------------------------------

  ghost predicate JobLive(j: Job<Pixmap?>, all: set<Pixmap>)
    reads all
  {
    && JobOk(j, all) && !j.dst.destroyed && (j.src != null ==> !j.src.destroyed)
    && (j.mask != null ==> !j.mask.destroyed)
  }

  /** `tegra_exa_finalize_3d_state`: the recorded fills of all the pixmaps of a job are performed first.
      That of the destination is known to be gone when the last job had the same one. */
  method Finalize(e: Engine, j: Job<Pixmap?>)
    requires e.Valid() && JobLive(j, e.all) && !e.in2dFlush
    modifies e`table, e`jobs, e`curDst, e`timer, e`blockcnt, e`attribs, e`wrap3d, e`in2dFlush, e`stream, e`color,
             e`optimize, e`cpuAccess, e.all`data, e.all`solidFill, e.all`solidColor, e.all`refcnt,
             e.all`freezerLockcnt, e.all`releases, e.all`locks
    ensures e.Valid() && e.Shown() == old(e.Shown()) && e.Locks() == old(e.Locks()) && e.stream == old(e.stream)
    ensures !e.in2dFlush && e.wrap3d == old(e.wrap3d) && e.jobs == old(e.jobs)
    ensures j.dst !in e.Solids() && j.src !in e.Solids() && j.mask !in e.Solids()
  {
    hide Engine.Book, Engine.Apart, Engine.JobsOk, Engine.Shown, Untouched;
    NoNull(e);
    if j.src != null {
      Flush2D(e, j.src);
    }
    if j.mask != null {
      Flush2D(e, j.mask);
    }
    if j.dst != e.curDst {
      Flush2D(e, j.dst);
    } else {
      FillFacts(e, j.dst);
      LastTouches(e.jobs);
    }
  }

  lemma NoNull(e: Engine)
    ensures null !in e.Solids()
  {
  }

  lemma LastTouches(js: seq<Job<Pixmap?>>)
    ensures js != [] ==> !Untouched(js, js[|js| - 1].dst)
  {
    if js != [] { assert js[|js| - 1].Touches(js[|js| - 1].dst); }
  }

  /** The references of a job that finds room in the table */
  method RefJob(e: Engine, j: Job<Pixmap?>, ghost refs: seq<Reference<Pixmap?>>)
    requires e.Book(refs) && JobLive(j, e.all)
    requires |e.table| + 1 + (if j.src == null then 0 else 1) + (if j.mask == null then 0 else 1) <= MAX_PIXMAPS
    modifies e`table, e.all`refcnt, e.all`freezerLockcnt
    ensures e.Book(refs + JobRefs(j, null))
  {
    hide Engine.Book;
    ghost var r1 := refs + [Reference(j.dst, true)];
    ghost var r2 := if j.src == null then r1 else r1 + [Reference(j.src, false)];
    ghost var r3 := if j.mask == null then r2 else r2 + [Reference(j.mask, false)];
    RefPixmap(e, j.dst, true, refs);
    RefPixmap(e, j.src, false, r1);
    RefPixmap(e, j.mask, false, r2);
    assert r3 == refs + JobRefs(j, null);
  }

  lemma QueuedOk(js: seq<Job<Pixmap?>>, j: Job<Pixmap?>, all: set<Pixmap>, solids: map<Pixmap?, Color>)
    requires (forall i {:trigger js[i]} :: 0 <= i < |js| ==> JobOk(js[i], all)) && JobOk(j, all)
    requires Exclusive(solids, js) && j.dst !in solids && j.src !in solids && j.mask !in solids
    ensures forall i {:trigger (js + [j])[i]} :: 0 <= i < |js + [j]| ==> JobOk((js + [j])[i], all)
    ensures Exclusive(solids, js + [j])
  {
    forall p | p in solids ensures Untouched(js + [j], p) {
      assert Untouched(js, p);
    }
  }

  /** The job is queued: it has been drawn, as far as anyone can see. */
  method Queue(e: Engine, j: Job<Pixmap?>, itr: nat)
    requires e.Valid() && JobOk(j, e.all) && j.dst !in e.Solids() && j.src !in e.Solids() && j.mask !in e.Solids()
    requires Fits(j, e.attribs, null) && itr == e.attribs + JobBytes(j, null)
    modifies e`jobs, e`curDst, e`attribs
    ensures e.jobs == old(e.jobs) + [j] && e.curDst == j.dst && e.JobsOk() && e.Apart() && e.Book(old(e.Refs()))
    ensures e.Shown() == RunJob(old(e.Shown()), j) && e.Vertices()
  {
    hide Engine.Book, Engine.Cursor, Seen, Exclusive, JobOk, RunJob, Pixmap.Sized, AllBytes, JobBytes;
    QueueSeen(e.Mem(), e.Solids(), e.jobs, j);
    QueuedOk(e.jobs, j, e.all, e.Solids());
    AllBytesAppend(e.jobs, j, null);
    e.jobs, e.curDst, e.attribs := e.jobs + [j], j.dst, itr;
  }

  /** `tegra_exa_optimize_3d_submission`. The job waits in the batch, unless it finds no room in the table,
      or `alone` says that the memory it maps is too large or that the kernel cannot batch. */
  method OptimizeSubmission(e: Engine, j: Job<Pixmap?>, itr: nat, alone: bool)
    requires e.Valid() && JobLive(j, e.all) && j.dst !in e.Solids() && j.src !in e.Solids() && j.mask !in e.Solids()
    requires e.wrap3d == 1 && Fits(j, e.attribs, null) && itr == e.attribs + JobBytes(j, null)
    modifies e`table, e`jobs, e`curDst, e`timer, e`blockcnt, e`attribs, e.all`data, e.all`refcnt,
             e.all`freezerLockcnt, e.all`releases
    ensures e.Valid() && e.Shown() == RunJob(old(e.Shown()), j) && e.Locks() == old(e.Locks())
    ensures e.jobs == if Waits(j, old(|e.table|), alone) then old(e.jobs) + [j] else []
  {
    hide Engine.Book, Engine.Apart, Engine.JobsOk, Engine.Vertices, Engine.Shown, RunJob, JobRefs, JobBytes, Fits;
    ghost var refs := e.Refs();
    AllRefsAppend(e.jobs, j, null);
    Queue(e, j, itr);
    var pixmaps := |e.table| + 1 + (if j.src == null then 0 else 1) + (if j.mask == null then 0 else 1);
    if pixmaps > MAX_PIXMAPS || alone {
      SubmitJobs(e, refs);
    } else {
      RefJob(e, j, refs);
      StartTimer(e);
    }
  }

  /** The first job of a batch starts the flush timer. */
  method StartTimer(e: Engine)
    requires e.Waiting()
    modifies e`timer, e`blockcnt
    ensures e.Waiting() && e.timer
  {
    if !e.timer {
      e.timer, e.blockcnt := true, e.blockcnt + 1;
    }
  }

  /** The table has room for the pixmaps of a job, and nothing else makes it go at once. */
  predicate Waits(j: Job<Pixmap?>, entries: nat, alone: bool) {
    !alone && entries + 1 + (if j.src == null then 0 else 1) + (if j.mask == null then 0 else 1) <= MAX_PIXMAPS
  }

  /** `tegra_exa_composite_3d` for every rectangle of a bracket: its vertices go into the buffer, or it is
      dropped because the buffer is full. */
  method PushVertices(j: Job<Pixmap?>, offset: nat) returns (pushed: Job<Pixmap?>, itr: nat)
    requires offset <= ATTRIB_SIZE
    ensures pushed == Cut(j, offset, null) && itr == offset + JobBytes(pushed, null) <= ATTRIB_SIZE
    ensures FirstThatFit(j, pushed, offset, null)
    ensures itr == offset + 24 * (1 + (if j.src == null then 0 else 1) + (if j.mask == null then 0 else 1))
                            * |pushed.draws|
  {
    var draws, i := [], 0;
    itr := offset;
    ghost var each, full := RectBytes(j, null), false;
    while i < |j.draws|
      invariant |draws| <= i <= |j.draws| && draws == j.draws[..|draws|]
      invariant itr == offset + Times(|draws|, each) <= ATTRIB_SIZE
      invariant full <==> |draws| < i
      invariant full ==> itr + each > ATTRIB_SIZE
    {
      if itr + RectBytes(j, null) > ATTRIB_SIZE {
        full := true;
      } else {
        draws := draws + [j.draws[i]];
        itr := itr + RectBytes(j, null);
      }
      i := i + 1;
    }
    RoomIs(offset, each, |j.draws|, |draws|);
    TimesIs(|draws|, each);
    CutFits(j, offset, null);
    pushed := j.(draws := draws);
  }

  /** Nothing is queued, and nothing was pushed. */
  method ResetUnused(e: Engine)
    requires e.Valid() && e.jobs == []
    modifies e`table, e`jobs, e`curDst, e`timer, e`blockcnt, e`attribs, e.all`refcnt, e.all`freezerLockcnt,
             e.all`releases
    ensures e.Valid() && e.jobs == [] && e.Shown() == old(e.Shown()) && e.Locks() == old(e.Locks())
  {
    hide Engine.Book, Engine.Apart, Engine.JobsOk, Engine.Cursor, Engine.Vertices, Engine.Shown;
    Reset(e, e.Refs());
  }

  /** The table has one entry for every pixmap that is referenced. */
  lemma SameTable(e: Engine, table: seq<Entry<Pixmap?>>, refs: seq<Reference<Pixmap?>>)
    requires e.Valid() && e.Refs() == refs && Booked(table, refs)
    ensures |e.table| == |table|
  {
    TableSize(table, refs);
    TableSize(e.table, refs);
  }

  /** A composite bracket, from `tegra_exa_prepare_composite_3d` to `tegra_exa_done_composite_3d`: its
      rectangles are one job, as far as they find room in the vertex buffer. A bracket that has none left
      submits nothing. */
  method Composite(e: Engine, j: Job<Pixmap?>, alone: bool)
    requires e.Valid() && JobLive(j, e.all) && e.stream == [] && !e.in2dFlush && e.wrap3d == 0
    modifies e`table, e`jobs, e`curDst, e`timer, e`blockcnt, e`attribs, e`wrap3d, e`in2dFlush, e`stream, e`color,
             e`optimize, e`cpuAccess, e.all`data, e.all`solidFill, e.all`solidColor, e.all`refcnt,
             e.all`freezerLockcnt, e.all`releases, e.all`locks
    ensures e.Valid() && e.Locks() == old(e.Locks()) && e.stream == [] && !e.in2dFlush && e.wrap3d == 0
    ensures old(e.attribs) <= ATTRIB_SIZE && e.Screen() == RunJob(old(e.Screen()), Cut(j, old(e.attribs), null))
    ensures var cut := Cut(j, old(e.attribs), null);
            e.jobs == if cut.draws == [] then old(e.jobs)
                      else if Waits(j, old(|e.table|), alone) then old(e.jobs) + [cut] else []
    ensures FirstThatFit(j, Cut(j, old(e.attribs), null), old(e.attribs), null)
    ensures e.attribs == Sum(Taken(e.jobs, null)) <= 256 * 1024
  {
    hide Engine.Valid, Engine.Shown, RunJob, JobBytes, RectBytes, Room, Cut, Taken, Sum, AllBytes, Fits,
         Booked;
    BufferFacts(e);
    e.wrap3d := e.wrap3d + 1;
    var pushed, itr := PushVertices(j, e.attribs);
    if pushed.draws != [] {
      CutExact(e.Shown(), j, e.attribs, null);
      SubmitBracket(e, pushed, itr, alone);
    } else {
      NothingDrawn(e.Screen(), pushed);
      if |e.jobs| == 0 {
        ResetUnused(e);
      }
    }
    e.wrap3d := e.wrap3d - 1;
    BufferFacts(e);
    BytesAre(e.jobs, null);
  }

  /** What has been pushed is finalized and submitted. */
  method SubmitBracket(e: Engine, j: Job<Pixmap?>, itr: nat, alone: bool)
    requires e.Valid() && JobLive(j, e.all) && !e.in2dFlush && e.wrap3d == 1
    requires Fits(j, e.attribs, null) && itr == e.attribs + JobBytes(j, null)
    modifies e`table, e`jobs, e`curDst, e`timer, e`blockcnt, e`attribs, e`wrap3d, e`in2dFlush, e`stream, e`color,
             e`optimize, e`cpuAccess, e.all`data, e.all`solidFill, e.all`solidColor, e.all`refcnt,
             e.all`freezerLockcnt, e.all`releases, e.all`locks
    ensures e.Valid() && e.Shown() == RunJob(old(e.Shown()), j) && e.Locks() == old(e.Locks())
    ensures e.stream == old(e.stream) && !e.in2dFlush && e.wrap3d == 1
    ensures e.jobs == if Waits(j, old(|e.table|), alone) then old(e.jobs) + [j] else []
  {
    hide Engine.Valid, Engine.Shown, RunJob, JobBytes;
    ghost var table, refs := e.table, e.Refs();
    BufferFacts(e);
    Finalize(e, j);
    BufferFacts(e);
    SameTable(e, table, refs);
    OptimizeSubmission(e, j, itr, alone);
  }

  lemma NothingDrawn(m: Screen<Pixmap?>, j: Job<Pixmap?>)
    requires j.draws == []
    ensures RunJob(m, j) == m
  {
  }

  lemma BufferFacts(e: Engine)
    requires e.Valid()
    ensures Booked(e.table, e.Refs()) && e.attribs == AllBytes(e.jobs, null) <= ATTRIB_SIZE
  {
  }

  // ---- CPU access, timer, destruction -------------------------------------------------------------

  /** Between brackets */
  ghost predicate Quiet(e: Engine)
    reads e
  {
    e.stream == [] && !e.in2dFlush && e.wrap3d == 0
  }

  /** What is in memory is on the screen, where nothing is recorded or about to be written. */
  lemma MemorySeen(e: Engine, p: Pixmap)
    requires e.Valid() && p in e.all && p !in e.Solids() && Unwritten(e.jobs, p)
    ensures p in e.Shown() && e.Shown()[p] == p.data
  {
    RunJobsKeeps(e.Mem(), e.jobs, p);
  }

  /** `tegra_exa_prepare_cpu_access` for reading: the memory that the CPU then reads is what is seen. */
  method CpuRead(e: Engine, p: Pixmap) returns (img: Image)
    requires e.Valid() && p in e.all && !p.destroyed && Quiet(e)
    modifies e`table, e`jobs, e`curDst, e`timer, e`blockcnt, e`attribs, e`wrap3d, e`in2dFlush, e`stream, e`color,
             e`optimize, e`cpuAccess, e.all`data, e.all`solidFill, e.all`solidColor, e.all`refcnt,
             e.all`freezerLockcnt, e.all`releases, e.all`locks
    ensures e.Valid() && e.Screen() == old(e.Screen()) && e.Locks() == old(e.Locks()) && Quiet(e)
    ensures p in e.Screen() && img == e.Screen()[p]
    ensures e.jobs == old(e.jobs) || e.jobs == []
  {
    hide Engine.Valid, Engine.Shown, Unwritten;
    Flush(e, p, false, true);
    MemorySeen(e, p);
    img := p.data;
  }

  /** `tegra_exa_prepare_cpu_access` for writing, and whatever the CPU then writes. */
  method CpuWrite(e: Engine, p: Pixmap, img: Image)
    requires e.Valid() && p in e.all && !p.destroyed && Quiet(e) && img.Keys == p.data.Keys
    modifies e`table, e`jobs, e`curDst, e`timer, e`blockcnt, e`attribs, e`wrap3d, e`in2dFlush, e`stream, e`color,
             e`optimize, e`cpuAccess, e.all`data, e.all`solidFill, e.all`solidColor, e.all`refcnt,
             e.all`freezerLockcnt, e.all`releases, e.all`locks
    ensures e.Valid() && e.Screen() == old(e.Screen())[p := img] && e.Locks() == old(e.Locks()) && Quiet(e)
    ensures e.jobs == old(e.jobs) || e.jobs == []
  {
    hide Engine.Valid, Engine.Shown, Untouched;
    ShownSolid(e, p);
    ghost var before := e.Shown();
    Flush(e, p, true, true);
    ShownSolid(e, p);
    Overwrite(e, p, img);
  }

  method Overwrite(e: Engine, p: Pixmap, img: Image)
    requires e.Valid() && p in e.all && p !in e.Solids() && Untouched(e.jobs, p) && img.Keys == p.data.Keys
    modifies p`data
    ensures e.Valid() && e.Shown() == old(e.Shown())[p := img]
  {
    hide Engine.Book, Engine.JobsOk, Engine.Cursor, Seen, Untouched, Exclusive;
    PictureSeen(e.Mem(), e.Solids(), e.jobs, p, img);
    WritePicture(e, p, img);
  }

  /** `tegra_exa_flush_3d_state_cb` */
  method FlushTimer(e: Engine)
    requires e.Valid() && Quiet(e)
    modifies e`table, e`jobs, e`curDst, e`timer, e`blockcnt, e`attribs, e`wrap3d, e.all`data, e.all`refcnt,
             e.all`freezerLockcnt, e.all`releases
    ensures e.Valid() && e.Screen() == old(e.Screen()) && e.Locks() == old(e.Locks()) && Quiet(e) && e.jobs == []
  {
    hide Engine.Valid, Engine.Shown;
    Flush3DState(e);
  }

  method DestroyOne(p: Pixmap, table: seq<Entry<Pixmap?>>, ghost n: nat)
    requires p.Balanced(n) && !p.destroyed && p.locks == 0 && (n == 0 ==> !Holds(table, p))
    modifies p`destroyed, p`refcnt, p`releases
    ensures p.Balanced(n) && p.destroyed && p.releases == if n == 0 then 1 else 0
  {
    p.destroyed := true;
    if p.refcnt > 1 {
      return;
    }
    Release(p, table);
  }

  /** `tegra_exa_destroy_pixmap_wrapper`: a pixmap that the batch still needs lives on until then. */
  method Destroy(e: Engine, p: Pixmap)
    requires e.Valid() && p in e.all && !p.destroyed && p.locks == 0
    modifies p`destroyed, p`refcnt, p`releases
    ensures e.Valid() && p.destroyed && e.Screen() == old(e.Screen())
    ensures p.releases == if old(Untouched(e.jobs, p)) then 1 else 0
  {
    hide Engine.JobsOk, Engine.Cursor, Engine.Apart, Booked, Count, Untouched, Pixmap.Balanced, Engine.Shown;
    TableMeans(e.table, e.jobs, p, null);
    assert p.Balanced(Count(e.Refs(), p));
    DestroyOne(p, e.table, Count(e.Refs(), p));
  }
}
