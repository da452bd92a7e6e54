/** The explicit fence of the 3D batch: src/exa/helpers.c, `tegra_exa_get_explicit_fence` and
    `tegra_exa_select_latest_fence`, and their use by src/exa/optimizations_3d.c. */
module Fences {
  /** `struct tegra_fence`. The count is that of the references after the first; at -1 the fence is freed. */
  class Fence {
    const seqno: nat
    var refcnt: int

    constructor (seqno: nat)
      ensures this.seqno == seqno && refcnt == 0
    {
      this.seqno, refcnt := seqno, 0;
    }
  }

  /** Every fence that somebody may still look at is alive. */
  ghost predicate Alive(fs: set<Fence>)
    reads fs
  {
    forall f {:trigger f in fs} :: f in fs ==> f.refcnt >= 0
  }

  /** One reference, held by whoever holds `g` */
  ghost function One(f: Fence?, g: Fence?): (n: int) {
    if f != null && f == g then 1 else 0
  }

  /** TEGRA_FENCE_GET */
  method Get(f: Fence) returns (r: Fence)
    requires f.refcnt >= 0
    modifies f`refcnt
    ensures r == f && f.refcnt == old(f.refcnt) + 1
  {
    f.refcnt := f.refcnt + 1;
    r := f;
  }

  /** TEGRA_FENCE_PUT: only a live fence may be put. */
  method Put(f: Fence?, ghost all: set<Fence>)
    requires f != null ==> f in all && f.refcnt >= 0
    modifies all`refcnt
    ensures forall g {:trigger g in all} :: g in all ==> g.refcnt == old(g.refcnt) - One(g, f)
  {
    if f != null {
      f.refcnt := f.refcnt - 1;
    }
  }

  /** The latest of some fences: one of them, with no later one among them. */
  ghost predicate Latest(f: Fence?, fs: seq<Fence?>) {
    && (f == null <==> forall g {:trigger g in fs} :: g in fs ==> g == null)
    && (f != null ==> f in fs && forall g {:trigger g in fs} :: g in fs && g != null ==> g.seqno <= f.seqno)
  }

  lemma LatestStep(f: Fence?, fs: seq<Fence?>, n: nat)
    requires n < |fs| && Latest(f, fs[..n])
    ensures fs[n] != null && (f == null || f.seqno <= fs[n].seqno) ==> Latest(fs[n], fs[..n + 1])
    ensures fs[n] == null || (f != null && fs[n].seqno <= f.seqno) ==> Latest(f, fs[..n + 1])
  {
    assert fs[..n + 1] == fs[..n] + [fs[n]];
    assert fs[n] in fs[..n + 1];
    if f != null { assert f in fs[..n + 1]; }
    forall g | g in fs[..n] ensures g in fs[..n + 1] { }
  }

  /** `tegra_exa_get_explicit_fence`: the fences of the source pixmaps, then those of the destination.
      The caller gets one reference to the latest of them, and no other count changes. */
  method GetExplicitFence(fences: seq<Fence?>, ghost all: set<Fence>) returns (f: Fence?)
    requires Alive(all) && forall g {:trigger g in fences} :: g in fences && g != null ==> g in all
    modifies all`refcnt
    ensures Latest(f, fences) && Alive(all) && (f != null ==> f in all)
    ensures forall g {:trigger g in all} :: g in all ==> g.refcnt == old(g.refcnt) + One(g, f)
  {
    hide Latest;
    var lastSeqno := 0;
    f := null;
    assert Latest(null, fences[..0]) by { LatestNone(fences[..0]); }
    for i := 0 to |fences|
      invariant Latest(f, fences[..i]) && (f != null ==> f in all && lastSeqno == f.seqno)
      invariant f == null ==> lastSeqno == 0
      invariant forall g {:trigger g in all} :: g in all ==> g.refcnt == old(g.refcnt) + One(g, f)
    {
      var g := fences[i];
      assert g in fences;
      LatestStep(f, fences, i);
      if g != null && g.seqno >= lastSeqno {
        Put(f, all);
        f := Get(g);
        lastSeqno := f.seqno;
      }
    }
    assert fences[..|fences|] == fences;
  }

  lemma LatestNone(fs: seq<Fence?>)
    requires fs == []
    ensures Latest(null, fs)
  {
  }

  /** `tegra_exa_select_latest_fence`: it keeps the reference to the latest fence and gives those to the
      others back. The same fence twice counts as one reference. */
  method SelectLatestFence(fences: seq<Fence?>, ghost all: set<Fence>) returns (f: Fence?)
    requires |fences| == 2 && (fences[0] != null ==> fences[0] in all) && (fences[1] != null ==> fences[1] in all)
    requires fences[0] != null ==> fences[0].refcnt >= 0
    requires fences[1] != null ==> fences[1].refcnt >= 0
    modifies all`refcnt
    ensures Latest(f, fences)
    ensures forall g {:trigger g in all} :: g in all ==>
              g.refcnt == old(g.refcnt) + One(g, f) - One(g, fences[0])
                          - (if fences[0] == fences[1] then 0 else One(g, fences[1]))
  {
    hide Latest;
    var lastSeqno := 0;
    f := null;
    assert Latest(null, fences[..0]) by { LatestNone(fences[..0]); }
    for i := 0 to |fences|
      invariant Latest(f, fences[..i]) && (f != null ==> lastSeqno == f.seqno) && (f == null ==> lastSeqno == 0)
      invariant i == 0 ==> f == null
      invariant i == 1 ==> f == fences[0]
      invariant i <= 1 ==> forall g {:trigger g in all} :: g in all ==> g.refcnt == old(g.refcnt)
      invariant i == 2 ==> forall g {:trigger g in all} :: g in all ==>
        g.refcnt == old(g.refcnt) + One(g, f) - One(g, fences[0])
                    - (if fences[0] == fences[1] then 0 else One(g, fences[1]))
    {
      var g := fences[i];
      LatestStep(f, fences, i);
      if g != null && g.seqno >= lastSeqno {
        if f != g {
          Put(f, all);
        }
        f := g;
        lastSeqno := f.seqno;
      } else {
        Put(g, all);
      }
    }
    assert fences[..|fences|] == fences;
  }

  /** The batch's share of `struct tegra_3d_state` */
  class Explicit {
    var fence: Fence?
    ghost var needed: seq<nat>  // the numbers of all fences that the queued jobs have to wait for

    constructor ()
      ensures fence == null && Valid()
    {
      fence, needed := null, [];
    }

    /** The batch waits for the greatest number among all that its jobs need. */
    ghost predicate Valid()
      reads this
    {
      && (fence == null <==> needed == [])
      && (fence != null ==>
            fence.seqno in needed && forall n {:trigger n in needed} :: n in needed ==> n <= fence.seqno)
    }
  }

  ghost function Numbers(fs: seq<Fence?>): (r: seq<nat>)
    ensures forall f {:trigger f in fs} :: f in fs && f != null ==> f.seqno in r
    ensures forall n {:trigger n in r} :: n in r ==> exists f :: f in fs && f != null && f.seqno == n
  {
    if fs == [] then [] else
      var rest, last := Numbers(fs[..|fs| - 1]), fs[|fs| - 1];
      assert fs == fs[..|fs| - 1] + [last];
      if last == null then rest else rest + [last.seqno]
  }

  lemma NumbersLatest(f: Fence?, g: Fence?, h: Fence?, needed: seq<nat>, fences: seq<Fence?>)
    requires f == null <==> needed == []
    requires f != null ==> f.seqno in needed && forall n {:trigger n in needed} :: n in needed ==> n <= f.seqno
    requires Latest(g, fences) && Latest(h, [f, g])
    ensures h == f || h == g
    ensures h == null <==> needed + Numbers(fences) == []
    ensures h != null ==>
              h.seqno in needed + Numbers(fences) && forall n {:trigger n in needed + Numbers(fences)} ::
                n in needed + Numbers(fences) ==> n <= h.seqno
  {
    assert f in [f, g] && g in [f, g];
    if h != null { assert h == f || h == g; }
    forall n | n in Numbers(fences) ensures g != null && n <= g.seqno {
      var x :| x in fences && x != null && x.seqno == n;
    }
    if g != null { assert g in fences; }
    if Numbers(fences) != [] { assert Numbers(fences)[0] in Numbers(fences); }
  }

  /** The fences of one more job, as in `tegra_exa_optimize_3d_submission`. */
  method AddJob(b: Explicit, fences: seq<Fence?>, ghost all: set<Fence>)
    requires b.Valid() && Alive(all) && (b.fence != null ==> b.fence in all && b.fence.refcnt >= 1)
    requires forall g {:trigger g in fences} :: g in fences && g != null ==> g in all
    modifies b, all`refcnt
    ensures b.Valid() && b.needed == old(b.needed) + Numbers(fences) && (b.fence != null ==> b.fence in all)
    ensures forall g {:trigger g in all} ::
              g in all ==> g.refcnt == old(g.refcnt) + One(g, b.fence) - One(g, old(b.fence))
  {
    hide Latest;
    var f := GetExplicitFence(fences, all);
    if f == b.fence {
      Put(f, all);
    }
    var pair := [b.fence, f];
    var latest := SelectLatestFence(pair, all);
    NumbersLatest(b.fence, f, latest, b.needed, fences);
    b.fence, b.needed := latest, b.needed + Numbers(fences);
  }

  /** The batch is over: `tegra_exa_release_optimized_3d_state` gives its reference back. */
  method EndBatch(b: Explicit, ghost all: set<Fence>)
    requires b.fence != null ==> b.fence in all && b.fence.refcnt >= 0
    modifies b, all`refcnt
    ensures b.Valid() && b.fence == null
    ensures forall g {:trigger g in all} :: g in all ==> g.refcnt == old(g.refcnt) - One(g, old(b.fence))
  {
    Put(b.fence, all);
    b.fence, b.needed := null, [];
  }

  ghost function AllNumbers(jobs: seq<seq<Fence?>>): (r: seq<nat>) {
    if jobs == [] then [] else AllNumbers(jobs[..|jobs| - 1]) + Numbers(jobs[|jobs| - 1])
  }

  /** A whole batch: what it waits for in the end is the latest fence of all its jobs, with one extra
      reference; and when it is over every count is what it was, so none has leaked. */
  method RunBatch(jobs: seq<seq<Fence?>>, ghost all: set<Fence>) returns (last: Fence?)
    requires Alive(all)
    requires forall i, g {:trigger g in jobs[i]} :: 0 <= i < |jobs| && g in jobs[i] && g != null ==> g in all
    modifies all`refcnt
    ensures last == null <==> AllNumbers(jobs) == []
    ensures last != null ==>
              last.seqno in AllNumbers(jobs) && forall n {:trigger n in AllNumbers(jobs)} ::
                n in AllNumbers(jobs) ==> n <= last.seqno
    ensures forall g {:trigger g in all} :: g in all ==> g.refcnt == old(g.refcnt)
  {
    var b := new Explicit();
    for i := 0 to |jobs|
      invariant b.Valid() && b.needed == AllNumbers(jobs[..i]) && (b.fence != null ==> b.fence in all)
      invariant forall g {:trigger g in all} :: g in all ==> g.refcnt == old(g.refcnt) + One(g, b.fence)
    {
      assert jobs[..i + 1][..i] == jobs[..i];
      AddJob(b, jobs[i], all);
    }
    assert jobs[..|jobs|] == jobs;
    last := b.fence;
    EndBatch(b, all);
  }
}
