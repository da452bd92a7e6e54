/** The pixmap table of the deferred 3D batch, as a summary of every reference that the queued jobs hold. */
module Batch {
  import opened Lists
  import opened Screens

  /** DRM_TEGRA_BO_TABLE_MAX_ENTRIES_NUM - 1: the size of the table */
  const MAX_PIXMAPS := 63

  datatype Reference<P> = Reference(pixmap: P, write: bool)

  /** `struct tegra_3d_state.pixmaps[i]` */
  datatype Entry<P> = Entry(pixmap: P, refcnt: nat, read: bool, write: bool)

  ghost function Count<P>(refs: seq<Reference<P>>, p: P): (n: nat) {
    if refs == [] then 0 else Count(refs[..|refs| - 1], p) + if refs[|refs| - 1].pixmap == p then 1 else 0
  }

  lemma {:induction false} CountIn<P>(refs: seq<Reference<P>>, p: P)
    ensures Count(refs, p) > 0 <==> exists w :: Reference(p, w) in refs
  {
    if refs != [] {
      var rest, last := refs[..|refs| - 1], refs[|refs| - 1];
      CountIn(rest, p);
      assert refs == rest + [last];
      if w :| Reference(p, w) in refs { assert Reference(p, w) in rest || last == Reference(p, w); }
      if last.pixmap == p { assert Reference(p, last.write) in refs; }
      if w :| Reference(p, w) in rest { assert Reference(p, w) in refs; }
    }
  }

  lemma CountAppend<P>(refs: seq<Reference<P>>, r: Reference<P>, p: P)
    ensures Count(refs + [r], p) == Count(refs, p) + if r.pixmap == p then 1 else 0
  {
    assert (refs + [r])[..|refs|] == refs;
  }

  /** What an entry says is what the references amount to. */
  ghost predicate Exact<P>(e: Entry<P>, refs: seq<Reference<P>>) {
    && e.refcnt == Count(refs, e.pixmap) > 0
    && (e.read <==> Reference(e.pixmap, false) in refs)
    && (e.write <==> Reference(e.pixmap, true) in refs)
  }

  ghost predicate Booked<P>(table: seq<Entry<P>>, refs: seq<Reference<P>>) {
    && (forall i, j {:trigger table[i], table[j]} :: 0 <= i < j < |table| ==> table[i].pixmap != table[j].pixmap)
    && (forall i {:trigger table[i]} :: 0 <= i < |table| ==> Exact(table[i], refs))
    && (forall r {:trigger r in refs} :: r in refs ==> Holds(table, r.pixmap))
  }

  ghost predicate Holds<P>(table: seq<Entry<P>>, p: P) {
    exists i :: 0 <= i < |table| && table[i].pixmap == p
  }

  lemma HoldsAt<P>(table: seq<Entry<P>>, i: nat)
    requires i < |table|
    ensures Holds(table, table[i].pixmap)
  {
  }

  /** A pixmap that is in the table gets one more reference. */
  lemma BookAgain<P>(table: seq<Entry<P>>, refs: seq<Reference<P>>, i: nat, write: bool)
    requires Booked(table, refs) && i < |table|
    ensures var e := table[i];
            Booked(table[i := e.(refcnt := e.refcnt + 1, read := e.read || !write, write := e.write || write)],
                   refs + [Reference(e.pixmap, write)])
  {
    var e := table[i];
    var e' := e.(refcnt := e.refcnt + 1, read := e.read || !write, write := e.write || write);
    var table', refs' := table[i := e'], refs + [Reference(e.pixmap, write)];
    forall k | 0 <= k < |table'| ensures Exact(table'[k], refs') {
      CountAppend(refs, Reference(e.pixmap, write), table[k].pixmap);
      assert Exact(table[k], refs);
    }
    forall r | r in refs' ensures Holds(table', r.pixmap) {
      if r in refs {
        var k :| 0 <= k < |table| && table[k].pixmap == r.pixmap;
        assert table'[k].pixmap == r.pixmap;
      } else {
        assert table'[i].pixmap == r.pixmap;
      }
    }
  }

  /** A pixmap that is not in the table gets an entry. */
  lemma BookNew<P>(table: seq<Entry<P>>, refs: seq<Reference<P>>, p: P, write: bool)
    requires Booked(table, refs) && !Holds(table, p)
    ensures Booked(table + [Entry(p, 1, !write, write)], refs + [Reference(p, write)])
  {
    var table', refs' := table + [Entry(p, 1, !write, write)], refs + [Reference(p, write)];
    CountIn(refs, p);
    CountAppend(refs, Reference(p, write), p);
    forall k | 0 <= k < |table'| ensures Exact(table'[k], refs') && (k < |table| ==> table'[k].pixmap != p) {
      if k < |table| {
        HoldsAt(table, k);
        CountAppend(refs, Reference(p, write), table[k].pixmap);
        assert Exact(table[k], refs);
      }
    }
    forall r | r in refs' ensures Holds(table', r.pixmap) {
      if r in refs {
        var k :| 0 <= k < |table| && table[k].pixmap == r.pixmap;
        assert table'[k].pixmap == r.pixmap;
      } else {
        assert table'[|table|].pixmap == r.pixmap;
      }
    }
  }

  /** The table has one entry for every pixmap that is referenced. */
  lemma TableSize<P>(table: seq<Entry<P>>, refs: seq<Reference<P>>)
    requires Booked(table, refs)
    ensures |table| == |set r | r in refs :: r.pixmap|
  {
    var held := set e | e in table :: e.pixmap;
    EntriesSize(table);
    forall p ensures p in held <==> p in (set r | r in refs :: r.pixmap) {
      if p in held {
        var i :| 0 <= i < |table| && table[i].pixmap == p;
        assert Exact(table[i], refs);
        CountIn(refs, p);
      }
      if r :| r in refs && r.pixmap == p {
        var i :| 0 <= i < |table| && table[i].pixmap == p;
        assert table[i] in table;
      }
    }
    assert held == set r | r in refs :: r.pixmap;
  }

  lemma {:induction false} EntriesSize<P>(table: seq<Entry<P>>)
    requires forall i, j {:trigger table[i], table[j]} :: 0 <= i < j < |table| ==> table[i].pixmap != table[j].pixmap
    ensures |set e | e in table :: e.pixmap| == |table|
  {
    if table != [] {
      var rest, last := table[..|table| - 1], table[|table| - 1];
      EntriesSize(rest);
      var a, b := set e | e in table :: e.pixmap, set e | e in rest :: e.pixmap;
      assert table == rest + [last];
      assert a == b + {last.pixmap};
    }
  }

  // ---- The references of the queued jobs ----------------------------------------------------------

  /** The order in which a job's pixmaps are referenced; `none` stands for a missing one. */
  ghost function JobRefs<P>(j: Job<P>, none: P): (r: seq<Reference<P>>) {
    [Reference(j.dst, true)]
    + (if j.src == none then [] else [Reference(j.src, false)])
    + (if j.mask == none then [] else [Reference(j.mask, false)])
  }

  ghost function AllRefs<P>(js: seq<Job<P>>, none: P): (r: seq<Reference<P>>) {
    if js == [] then [] else AllRefs(js[..|js| - 1], none) + JobRefs(js[|js| - 1], none)
  }

  lemma AllRefsAppend<P>(js: seq<Job<P>>, j: Job<P>, none: P)
    ensures AllRefs(js + [j], none) == AllRefs(js, none) + JobRefs(j, none)
  {
    assert (js + [j])[..|js|] == js;
  }

  lemma {:induction false} RefsAre<P>(js: seq<Job<P>>, p: P, none: P)
    requires p != none
    ensures Reference(p, true) in AllRefs(js, none) <==> !Unwritten(js, p)
    ensures !Untouched(js, p) <==> exists w :: Reference(p, w) in AllRefs(js, none)
  {
    if js != [] {
      var rest, j := js[..|js| - 1], js[|js| - 1];
      RefsAre(rest, p, none);
      LastJob(js, p, none);
    }
  }

  lemma LastJob<P>(js: seq<Job<P>>, p: P, none: P)
    requires js != [] && p != none
    ensures var rest, j := js[..|js| - 1], js[|js| - 1];
            && (Unwritten(js, p) <==> Unwritten(rest, p) && j.dst != p)
            && (Untouched(js, p) <==> Untouched(rest, p) && !j.Touches(p))
            && (j.Touches(p) <==> exists w :: Reference(p, w) in JobRefs(j, none))
  {
    var rest, j := js[..|js| - 1], js[|js| - 1];
    if j.Touches(p) { assert Reference(p, j.dst == p) in JobRefs(j, none); }
    if Unwritten(rest, p) && j.dst != p {
      forall i | 0 <= i < |js| ensures js[i].dst != p { assert i < |rest| ==> rest[i].dst != p; }
    }
    if Untouched(rest, p) && !j.Touches(p) {
      forall i | 0 <= i < |js| ensures !js[i].Touches(p) { assert i < |rest| ==> !rest[i].Touches(p); }
    }
    if Unwritten(js, p) { forall i | 0 <= i < |rest| ensures rest[i].dst != p { assert js[i].dst != p; } }
    if Untouched(js, p) { forall i | 0 <= i < |rest| ensures !rest[i].Touches(p) { assert !js[i].Touches(p); } }
  }

  /** The table tells exactly which pixmaps the queued jobs touch and which they write. */
  lemma TableMeans<P>(table: seq<Entry<P>>, js: seq<Job<P>>, p: P, none: P)
    requires p != none && Booked(table, AllRefs(js, none))
    ensures Holds(table, p) <==> !Untouched(js, p)
    ensures forall i {:trigger table[i]} ::
              0 <= i < |table| && table[i].pixmap == p ==> (table[i].write <==> !Unwritten(js, p))
    ensures !Untouched(js, p) <==> Count(AllRefs(js, none), p) > 0
  {
    RefsAre(js, p, none);
    CountIn(AllRefs(js, none), p);
    if Holds(table, p) {
      var i :| 0 <= i < |table| && table[i].pixmap == p;
      assert Exact(table[i], AllRefs(js, none));
    }
  }

  // ---- The vertex buffer of the queued jobs -------------------------------------------------------

  /** TEGRA_ATTRIB_BUFFER_SIZE */
  const ATTRIB_SIZE := 256 * 1024

  /** A rectangle takes six vertices of two half floats for the destination, and as many for each texture. */
  function RectBytes<P(==)>(j: Job<P>, none: P): (n: nat) {
    24 + (if j.src == none then 0 else 24) + (if j.mask == none then 0 else 24)
  }

  /** What `k` rectangles take */
  function Times(k: nat, each: nat): (n: nat) {
    if k == 0 then 0 else Times(k - 1, each) + each
  }

  ghost function JobBytes<P>(j: Job<P>, none: P): (n: nat) {
    Times(|j.draws|, RectBytes(j, none))
  }

  ghost function AllBytes<P>(js: seq<Job<P>>, none: P): (n: nat) {
    if js == [] then 0 else AllBytes(js[..|js| - 1], none) + JobBytes(js[|js| - 1], none)
  }

  lemma AllBytesAppend<P>(js: seq<Job<P>>, j: Job<P>, none: P)
    ensures AllBytes(js + [j], none) == AllBytes(js, none) + JobBytes(j, none)
  {
    assert (js + [j])[..|js|] == js;
  }

  lemma {:induction false} TimesGrow(j: nat, k: nat, each: nat)
    requires j < k
    ensures Times(j, each) + each <= Times(k, each)
  {
    if j < k - 1 { TimesGrow(j, k - 1, each); }
  }

  /** The most of `n` rectangles that find room behind `used` bytes */
  ghost function Room(used: nat, each: nat, n: nat): (k: nat)
    requires used <= ATTRIB_SIZE
    ensures k <= n && used + Times(k, each) <= ATTRIB_SIZE
    ensures k < n ==> used + Times(k + 1, each) > ATTRIB_SIZE
  {
    if used + Times(n, each) <= ATTRIB_SIZE then n else Room(used, each, n - 1)
  }

  /** All of a job has room. */
  ghost predicate Fits<P>(j: Job<P>, used: nat, none: P) {
    used + JobBytes(j, none) <= ATTRIB_SIZE
  }

  /** What is left of a job when `used` bytes of the vertex buffer are taken */
  ghost function Cut<P>(j: Job<P>, used: nat, none: P): (r: Job<P>)
    requires used <= ATTRIB_SIZE
  {
    j.(draws := j.draws[..Room(used, RectBytes(j, none), |j.draws|)])
  }

  /** `pushed` is the first rectangles of `j`: they have room behind `used` bytes of 256 KiB, at 24 bytes for the
      destination and for each texture, and one more has none. */
  ghost predicate FirstThatFit<P>(j: Job<P>, pushed: Job<P>, used: int, none: P) {
    var each := 24 * (1 + (if j.src == none then 0 else 1) + (if j.mask == none then 0 else 1));
    && pushed == Job(j.dst, j.src, j.mask, pushed.draws) && pushed.draws <= j.draws
    && used + each * |pushed.draws| <= 256 * 1024
    && (|pushed.draws| < |j.draws| ==> used + each * (|pushed.draws| + 1) > 256 * 1024)
  }

  /** The bytes that the vertices of each job take */
  ghost function Taken<P>(js: seq<Job<P>>, none: P): (r: seq<int>)
    ensures |r| == |js|
    ensures forall i {:trigger r[i]} :: 0 <= i < |js| ==>
              r[i] == 24 * (1 + (if js[i].src == none then 0 else 1) + (if js[i].mask == none then 0 else 1))
                      * |js[i].draws|
  {
    seq(|js|, i requires 0 <= i < |js| =>
      24 * (1 + (if js[i].src == none then 0 else 1) + (if js[i].mask == none then 0 else 1)) * |js[i].draws|)
  }

  lemma {:induction false} TimesIs(k: nat, each: nat)
    ensures Times(k, each) == each * k
  {
    if k > 0 { TimesIs(k - 1, each); }
  }

  lemma CutFits<P>(j: Job<P>, used: nat, none: P)
    requires used <= ATTRIB_SIZE
    ensures FirstThatFit(j, Cut(j, used, none), used, none)
  {
    var each := RectBytes(j, none);
    var k := Room(used, each, |j.draws|);
    TimesIs(k, each);
    TimesIs(k + 1, each);
  }

  lemma {:induction false} BytesAre<P>(js: seq<Job<P>>, none: P)
    ensures AllBytes(js, none) == Sum(Taken(js, none))
  {
    if js != [] {
      var rest, j := js[..|js| - 1], js[|js| - 1];
      BytesAre(rest, none);
      TimesIs(|j.draws|, RectBytes(j, none));
      assert Taken(js, none)[..|js| - 1] == Taken(rest, none);
    }
  }

  /** The number of rectangles that have room is unique. */
  lemma RoomIs(used: nat, each: nat, n: nat, k: nat)
    requires used <= ATTRIB_SIZE && k <= n && used + Times(k, each) <= ATTRIB_SIZE
    requires k < n ==> used + Times(k + 1, each) > ATTRIB_SIZE
    ensures k == Room(used, each, n)
  {
    var r := Room(used, each, n);
    if r < k {
      if r + 1 < k { TimesGrow(r + 1, k, each); }
    } else if k < r {
      if k + 1 < r { TimesGrow(k + 1, r, each); }
    }
  }

  lemma {:induction false} PrefixDraws<P>(m: Screen<P>, j: Job<P>, k: nat, i: nat)
    requires i <= k <= |j.draws|
    ensures RunDraws(m, j.(draws := j.draws[..k]), i) == RunDraws(m, j, i)
  {
    if i > 0 { PrefixDraws(m, j, k, i - 1); }
  }

  /** Leaving rectangles out at the end would show. */
  ghost predicate Shows<P>(m: Screen<P>, j: Job<P>) {
    forall k {:trigger RunDraws(m, j, k)} :: 0 <= k < |j.draws| ==> RunDraws(m, j, k) != RunJob(m, j)
  }

  /** A job whose rectangles all show is seen as drawn if and only if all of it has room in the vertex
      buffer; and what has room is drawn in any case. */
  lemma CutExact<P>(m: Screen<P>, j: Job<P>, used: nat, none: P)
    requires used <= ATTRIB_SIZE
    ensures Fits(j, used, none) <==> Cut(j, used, none) == j
    ensures Shows(m, j) ==> (RunJob(m, Cut(j, used, none)) == RunJob(m, j) <==> Fits(j, used, none))
    ensures Fits(Cut(j, used, none), used, none)
  {
    hide RunDraws;
    var each, n := RectBytes(j, none), |j.draws|;
    var k := Room(used, each, n);
    PrefixDraws(m, j, k, k);
    if Fits(j, used, none) {
      RoomIs(used, each, n, n);
      assert j.draws[..n] == j.draws;
    } else {
      assert k < n;
    }
  }
}
