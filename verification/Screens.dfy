/** What drawing means: the eager machine, and the screen that a lazy machine stands for.

    Pixels are opaque. Every rectangle of a 3D job is an opaque function of its source, its mask and its
    destination that writes the destination only. */
module Screens {
  type Color = int

  datatype Point = Point(x: int, y: int)

  datatype Rect = Rect(x1: int, y1: int, x2: int, y2: int) {
    predicate Has(pt: Point) {
      x1 <= pt.x < x2 && y1 <= pt.y < y2
    }
  }

  type Image = map<Point, Color>

  type Screen<P> = map<P, Image>

  /** What a rectangle makes of a pixel: of the destination, the source and the mask as they are */
  type Paint = (Image, Image, Image, Point) -> Color

  /** The rectangles that one composite bracket draws */
  datatype Job<P> = Job(dst: P, src: P, mask: P, draws: seq<Paint>) {
    ghost predicate Touches(p: P) {
      p == dst || p == src || p == mask
    }
  }

  /** One command of a 2D stream */
  datatype Cmd<P> =
    | Fill(dst: P, rect: Rect, color: Color)
    | Blit(dst: P, src: P, dx: int, dy: int, rect: Rect)  // pixel (x, y) of the source goes to (x + dx, y + dy)

  function Filled(img: Image, r: Rect, c: Color): (res: Image)
    ensures res.Keys == img.Keys
  {
    map pt | pt in img :: if r.Has(pt) then c else img[pt]
  }

  /** The whole pixmap in one colour */
  function Solid(img: Image, c: Color): (res: Image)
    ensures res.Keys == img.Keys
  {
    map pt | pt in img :: c
  }

  function Blitted(img: Image, src: Image, dx: int, dy: int, r: Rect): (res: Image)
    ensures res.Keys == img.Keys
  {
    map pt | pt in img ::
      if r.Has(pt) && Point(pt.x - dx, pt.y - dy) in src then src[Point(pt.x - dx, pt.y - dy)] else img[pt]
  }

  /** The picture of a pixmap, and nothing where there is no pixmap */
  function Pic<P>(m: Screen<P>, p: P): (r: Image) {
    if p in m then m[p] else map[]
  }

  function Painted(dst: Image, src: Image, mask: Image, paint: Paint): (r: Image)
    ensures r.Keys == dst.Keys
  {
    map pt | pt in dst :: paint(dst, src, mask, pt)
  }

  /** The first `k` rectangles of a job, in their order */
  function RunDraws<P>(m: Screen<P>, j: Job<P>, k: nat): (r: Screen<P>)
    requires k <= |j.draws|
    ensures r.Keys == m.Keys
  {
    if k == 0 then m else
      var before := RunDraws(m, j, k - 1);
      if j.dst in before then
        before[j.dst := Painted(before[j.dst], Pic(before, j.src), Pic(before, j.mask), j.draws[k - 1])]
      else before
  }

  function RunJob<P>(m: Screen<P>, j: Job<P>): (r: Screen<P>)
    ensures r.Keys == m.Keys
  {
    RunDraws(m, j, |j.draws|)
  }

  function RunCmd<P>(m: Screen<P>, c: Cmd<P>): (r: Screen<P>)
    ensures r.Keys == m.Keys
  {
    if c.dst !in m then m
    else m[c.dst := match c
                    case Fill(p, r, col) => Filled(m[p], r, col)
                    case Blit(p, src, dx, dy, r) => Blitted(m[p], Pic(m, src), dx, dy, r)]
  }

  function RunJobs<P>(m: Screen<P>, js: seq<Job<P>>): (r: Screen<P>)
    ensures r.Keys == m.Keys
  {
    if js == [] then m else RunJob(RunJobs(m, js[..|js| - 1]), js[|js| - 1])
  }

  function RunCmds<P>(m: Screen<P>, cs: seq<Cmd<P>>): (r: Screen<P>)
    ensures r.Keys == m.Keys
  {
    if cs == [] then m else RunCmd(RunCmds(m, cs[..|cs| - 1]), cs[|cs| - 1])
  }

  ghost predicate Untouched<P>(js: seq<Job<P>>, p: P) {
    forall i :: 0 <= i < |js| ==> !js[i].Touches(p)
  }

  ghost predicate Unwritten<P>(js: seq<Job<P>>, p: P) {
    forall i :: 0 <= i < |js| ==> js[i].dst != p
  }

  /** What an observer of the lazy machine is entitled to see: the recorded fill where there is one, and
      the memory with all pending jobs applied elsewhere. */
  ghost function Seen<P>(m: Screen<P>, solid: map<P, Color>, js: seq<Job<P>>): (r: Screen<P>)
    ensures r.Keys == m.Keys
  {
    map p | p in m :: if p in solid then Solid(m[p], solid[p]) else RunJobs(m, js)[p]
  }

  /** No pending job touches a pixmap with a recorded fill. */
  ghost predicate Exclusive<P>(solid: map<P, Color>, js: seq<Job<P>>) {
    forall p {:trigger p in solid} :: p in solid ==> Untouched(js, p)
  }

  /** A job changes the picture of its destination only, and not its shape. */
  lemma {:induction false} DrawsWriteOne<P>(m: Screen<P>, j: Job<P>, k: nat)
    requires k <= |j.draws|
    ensures if j.dst in m then RunDraws(m, j, k) == m[j.dst := RunDraws(m, j, k)[j.dst]] else RunDraws(m, j, k) == m
    ensures j.dst in m ==> RunDraws(m, j, k)[j.dst].Keys == m[j.dst].Keys
  {
    if k > 0 { DrawsWriteOne(m, j, k - 1); }
  }

  lemma DrawsStep<P>(m: Screen<P>, j: Job<P>, k: nat)
    requires k <= |j.draws| && j.dst in m
    ensures k == 0 ==> RunDraws(m, j, k) == m
    ensures k > 0 ==>
              var before := RunDraws(m, j, k - 1);
              && j.dst in before
              && RunDraws(m, j, k)[j.dst]
                   == Painted(before[j.dst], Pic(before, j.src), Pic(before, j.mask), j.draws[k - 1])
  {
  }

  lemma PicAfter<P>(m: Screen<P>, j: Job<P>, k: nat, p: P)
    requires k <= |j.draws| && j.dst in m
    ensures Pic(RunDraws(m, j, k), p) == if p == j.dst then RunDraws(m, j, k)[p] else Pic(m, p)
  {
    DrawsWriteOne(m, j, k);
  }

  /** ... and depends on the pictures of its pixmaps only. */
  lemma {:induction false} DrawsSeeThree<P>(a: Screen<P>, b: Screen<P>, j: Job<P>, k: nat)
    requires k <= |j.draws| && j.dst in a && j.dst in b
    requires a[j.dst] == b[j.dst] && Pic(a, j.src) == Pic(b, j.src) && Pic(a, j.mask) == Pic(b, j.mask)
    ensures RunDraws(a, j, k)[j.dst] == RunDraws(b, j, k)[j.dst]
  {
    hide Painted, Pic, RunDraws;
    DrawsStep(a, j, k);
    DrawsStep(b, j, k);
    if k > 0 {
      DrawsSeeThree(a, b, j, k - 1);
      PicAfter(a, j, k - 1, j.src);
      PicAfter(b, j, k - 1, j.src);
      PicAfter(a, j, k - 1, j.mask);
      PicAfter(b, j, k - 1, j.mask);
    }
  }

  lemma {:induction false} RunJobsShape<P>(m: Screen<P>, js: seq<Job<P>>, p: P)
    requires p in m
    ensures RunJobs(m, js)[p].Keys == m[p].Keys
  {
    if js != [] {
      RunJobsShape(m, js[..|js| - 1], p);
      DrawsWriteOne(RunJobs(m, js[..|js| - 1]), js[|js| - 1], |js[|js| - 1].draws|);
    }
  }

  /** A pixmap that no job writes keeps its picture. */
  lemma {:induction false} RunJobsKeeps<P>(m: Screen<P>, js: seq<Job<P>>, p: P)
    requires p in m && Unwritten(js, p)
    ensures RunJobs(m, js)[p] == m[p]
  {
    if js != [] {
      RunJobsKeeps(m, js[..|js| - 1], p);
      DrawsWriteOne(RunJobs(m, js[..|js| - 1]), js[|js| - 1], |js[|js| - 1].draws|);
    }
  }

  /** Jobs neither see nor change a pixmap that they do not touch. */
  lemma {:induction false} JobsFrame<P>(m: Screen<P>, js: seq<Job<P>>, p: P, img: Image)
    requires p in m && Untouched(js, p)
    ensures RunJobs(m[p := img], js) == RunJobs(m, js)[p := img]
  {
    if js != [] {
      var js', j := js[..|js| - 1], js[|js| - 1];
      JobsFrame(m, js', p, img);
      JobFrame(RunJobs(m, js'), j, p, img);
    }
  }

  lemma JobFrame<P>(m: Screen<P>, j: Job<P>, p: P, img: Image)
    requires p in m && !j.Touches(p)
    ensures RunJob(m[p := img], j) == RunJob(m, j)[p := img]
  {
    hide RunDraws;
    DrawsWriteOne(m, j, |j.draws|);
    DrawsWriteOne(m[p := img], j, |j.draws|);
    if j.dst in m { DrawsSeeThree(m, m[p := img], j, |j.draws|); }
  }

  lemma {:induction false} RunJobsAppend<P>(m: Screen<P>, js: seq<Job<P>>, j: Job<P>)
    ensures RunJobs(m, js + [j]) == RunJob(RunJobs(m, js), j)
  {
    assert (js + [j])[..|js|] == js;
  }

  lemma {:induction false} RunCmdsAppend<P>(m: Screen<P>, cs: seq<Cmd<P>>, c: Cmd<P>)
    ensures RunCmds(m, cs + [c]) == RunCmd(RunCmds(m, cs), c)
  {
    assert (cs + [c])[..|cs|] == cs;
  }

  // ---- What one rectangle shows, in coordinates ---------------------------------------------------

  /** Two screens that differ in one pixmap only */
  ghost predicate SameBut<P>(m: Screen<P>, m': Screen<P>, p: P) {
    m.Keys == m'.Keys && p in m && m[p].Keys == m'[p].Keys && m' == m[p := m'[p]]
  }

  /** The pixels inside the bounds have the colour; no other pixel of the screen changes. */
  ghost predicate FillShown<P>(m: Screen<P>, m': Screen<P>, dst: P, x1: int, y1: int, x2: int, y2: int, c: Color) {
    && SameBut(m, m', dst)
    && forall x, y {:trigger Point(x, y)} :: Point(x, y) in m[dst] ==>
         m'[dst][Point(x, y)] == if x1 <= x < x2 && y1 <= y < y2 then c else m[dst][Point(x, y)]
  }

  /** The pixels inside the bounds are those that the source had `dx` to the left and `dy` above; no other
      pixel of the screen changes. */
  ghost predicate CopyShown<P>(m: Screen<P>, m': Screen<P>, dst: P, src: P, dx: int, dy: int,
                               x1: int, y1: int, x2: int, y2: int) {
    && SameBut(m, m', dst) && src in m
    && forall x, y {:trigger Point(x, y)} :: Point(x, y) in m[dst] ==>
         if x1 <= x < x2 && y1 <= y < y2 then
           Point(x - dx, y - dy) in m[src] && m'[dst][Point(x, y)] == m[src][Point(x - dx, y - dy)]
         else
           m'[dst][Point(x, y)] == m[dst][Point(x, y)]
  }

  /** Every pixel of the destination is what the rectangle makes of the three pictures; no other changes. */
  ghost predicate PaintShown<P>(m: Screen<P>, m': Screen<P>, dst: P, src: P, mask: P, paint: Paint) {
    && SameBut(m, m', dst)
    && forall pt {:trigger m'[dst][pt]} :: pt in m[dst] ==>
         m'[dst][pt] == paint(m[dst], if src in m then m[src] else map[], if mask in m then m[mask] else map[], pt)
  }

  lemma FillIs<P>(m: Screen<P>, p: P, r: Rect, c: Color)
    requires p in m
    ensures FillShown(m, RunCmd(m, Fill(p, r, c)), p, r.x1, r.y1, r.x2, r.y2, c)
  {
  }

  lemma BlitIs<P>(m: Screen<P>, c: Cmd<P>)
    requires c.Blit? && c.dst in m && c.src in m
    requires forall pt {:trigger pt in m[c.dst]} :: pt in m[c.dst] && c.rect.Has(pt) ==>
               Point(pt.x - c.dx, pt.y - c.dy) in m[c.src]
    ensures CopyShown(m, RunCmd(m, c), c.dst, c.src, c.dx, c.dy, c.rect.x1, c.rect.y1, c.rect.x2, c.rect.y2)
  {
  }

  lemma PaintIs<P>(m: Screen<P>, j: Job<P>, k: nat)
    requires k < |j.draws| && j.dst in m
    ensures PaintShown(RunDraws(m, j, k), RunDraws(m, j, k + 1), j.dst, j.src, j.mask, j.draws[k])
  {
    DrawsWriteOne(m, j, k);
  }

  // ---- What the steps of the lazy machine do to the screen ----------------------------------------

  /** Submitting the batch shows nothing. */
  lemma SubmitUnseen<P>(m: Screen<P>, solid: map<P, Color>, js: seq<Job<P>>)
    requires Exclusive(solid, js)
    ensures Seen(RunJobs(m, js), solid, []) == Seen(m, solid, js)
  {
    forall p | p in m ensures Seen(RunJobs(m, js), solid, [])[p] == Seen(m, solid, js)[p] {
      if p in solid { RunJobsKeeps(m, js, p); }
    }
  }

  /** Recording a fill is filling. */
  lemma RecordSeen<P>(m: Screen<P>, solid: map<P, Color>, js: seq<Job<P>>, p: P, c: Color)
    requires p in m
    ensures Seen(m, solid[p := c], js) == Seen(m, solid, js)[p := Solid(Seen(m, solid, js)[p], c)]
  {
    RunJobsShape(m, js, p);
  }

  /** Dropping the only pending job, or a recorded fill, changes what is seen of its pixmap only. */
  lemma DropSeen<P>(m: Screen<P>, solid: map<P, Color>, js: seq<Job<P>>, p: P)
    requires p in m && |js| <= 1 && (js != [] ==> js[0].dst == p)
    ensures SameBut(Seen(m, solid, js), Seen(m, solid - {p}, []), p)
  {
    RunJobsShape(m, js, p);
    forall q | q in m && q != p ensures RunJobs(m, js)[q] == m[q] {
      RunJobsKeeps(m, js, q);
    }
  }

  lemma UnrecordSeen<P>(m: Screen<P>, solid: map<P, Color>, js: seq<Job<P>>, p: P)
    requires p in m
    ensures SameBut(Seen(m, solid, js), Seen(m, solid - {p}, js), p)
  {
    RunJobsShape(m, js, p);
  }

  /** Executing a 2D command in memory is executing it on the screen, once its destination is neither
      recorded nor pending and its source is neither recorded nor about to be written. */
  ghost predicate Clear2D<P>(c: Cmd<P>, solid: map<P, Color>, js: seq<Job<P>>) {
    && c.dst !in solid && Untouched(js, c.dst)
    && (c.Blit? ==> c.src !in solid && Unwritten(js, c.src))
  }

  lemma UntouchedUnwritten<P>(js: seq<Job<P>>, p: P)
    requires Untouched(js, p)
    ensures Unwritten(js, p)
  {
    forall i | 0 <= i < |js| ensures js[i].dst != p { assert !js[i].Touches(p); }
  }

  /** A new picture of a pixmap that is neither recorded nor pending */
  lemma PictureSeen<P>(m: Screen<P>, solid: map<P, Color>, js: seq<Job<P>>, p: P, img: Image)
    requires p in m && p !in solid && Untouched(js, p)
    ensures Seen(m[p := img], solid, js) == Seen(m, solid, js)[p := img] && Seen(m, solid, js)[p] == m[p]
  {
    hide RunJobs, Untouched, Unwritten;
    UntouchedUnwritten(js, p);
    JobsFrame(m, js, p, img);
    RunJobsKeeps(m, js, p);
  }

  lemma CmdSeen<P>(m: Screen<P>, solid: map<P, Color>, js: seq<Job<P>>, c: Cmd<P>)
    requires Clear2D(c, solid, js)
    ensures Seen(RunCmd(m, c), solid, js) == RunCmd(Seen(m, solid, js), c)
  {
    hide Seen;
    if c.dst in m {
      PictureSeen(m, solid, js, c.dst, RunCmd(m, c)[c.dst]);
      if c.Blit? { SourceSeen(m, solid, js, c.src); }
    }
  }

  lemma SourceSeen<P>(m: Screen<P>, solid: map<P, Color>, js: seq<Job<P>>, p: P)
    requires p !in solid && Unwritten(js, p)
    ensures Pic(Seen(m, solid, js), p) == Pic(m, p)
  {
    if p in m { RunJobsKeeps(m, js, p); }
  }

  lemma {:induction false} CmdsSeen<P>(m: Screen<P>, solid: map<P, Color>, js: seq<Job<P>>, cs: seq<Cmd<P>>)
    requires forall i {:trigger cs[i]} :: 0 <= i < |cs| ==> Clear2D(cs[i], solid, js)
    ensures Seen(RunCmds(m, cs), solid, js) == RunCmds(Seen(m, solid, js), cs)
  {
    if cs != [] {
      CmdsSeen(m, solid, js, cs[..|cs| - 1]);
      CmdSeen(RunCmds(m, cs[..|cs| - 1]), solid, js, cs[|cs| - 1]);
    }
  }

  /** Queueing a job is running it. */
  lemma QueueSeen<P>(m: Screen<P>, solid: map<P, Color>, js: seq<Job<P>>, j: Job<P>)
    requires Exclusive(solid, js) && j.dst !in solid && j.src !in solid && j.mask !in solid
    ensures Seen(m, solid, js + [j]) == RunJob(Seen(m, solid, js), j)
  {
    hide RunDraws, RunJobs, Exclusive;
    RunJobsAppend(m, js, j);
    var a, b := RunJobs(m, js), Seen(m, solid, js);
    DrawsWriteOne(a, j, |j.draws|);
    DrawsWriteOne(b, j, |j.draws|);
    if j.dst in m { DrawsSeeThree(a, b, j, |j.draws|); }
  }

  // ---- Commands that wait in the stream of a bracket ----------------------------------------------

  /** The commands of a fill bracket */
  ghost predicate AllFill<P>(cs: seq<Cmd<P>>, p: P, c: Color) {
    forall i {:trigger cs[i]} :: 0 <= i < |cs| ==> cs[i].Fill? && cs[i].dst == p && cs[i].color == c
  }

  /** The commands of a copy bracket */
  ghost predicate AllBlit<P>(cs: seq<Cmd<P>>, dst: P, src: P) {
    forall i {:trigger cs[i]} :: 0 <= i < |cs| ==> cs[i].Blit? && cs[i].dst == dst && cs[i].src == src
  }

  lemma FillsCommute(img: Image, r1: Rect, r2: Rect, c: Color)
    ensures Filled(Filled(img, r1, c), r2, c) == Filled(Filled(img, r2, c), r1, c)
    ensures Filled(Solid(img, c), r1, c) == Solid(img, c) && Solid(Filled(img, r1, c), c) == Solid(img, c)
  {
  }

  /** A rectangle of the same colour may overtake those that wait. */
  lemma {:induction false} FillOvertakes<P>(m: Screen<P>, cs: seq<Cmd<P>>, p: P, r: Rect, c: Color)
    requires AllFill(cs, p, c) && p in m
    ensures RunCmds(m[p := Filled(m[p], r, c)], cs) == RunCmd(RunCmds(m, cs), Fill(p, r, c))
  {
    hide Filled;
    if cs != [] {
      var cs' := cs[..|cs| - 1];
      FillOvertakes(m, cs', p, r, c);
      FillsCommute(RunCmds(m, cs')[p], r, cs[|cs| - 1].rect, c);
    }
  }

  /** Filling the whole pixmap swallows rectangles of the same colour. */
  lemma {:induction false} SolidSwallows<P>(m: Screen<P>, cs: seq<Cmd<P>>, p: P, c: Color)
    requires AllFill(cs, p, c) && p in m
    ensures RunCmds(m[p := Solid(m[p], c)], cs) == RunCmds(m, cs)[p := Solid(RunCmds(m, cs)[p], c)]
    ensures Solid(RunCmds(m, cs)[p], c) == Solid(m[p], c)
  {
    hide Filled, Solid, Blitted;
    if cs != [] {
      var cs' := cs[..|cs| - 1];
      SolidSwallows(m, cs', p, c);
      FillsCommute(RunCmds(m, cs')[p], cs[|cs| - 1].rect, cs[|cs| - 1].rect, c);
    }
  }

  ghost predicate Covers(c: Cmd, img: Image, src: Image)
    requires c.Blit?
  {
    forall pt {:trigger pt in img} :: pt in img ==> c.rect.Has(pt) && Point(pt.x - c.dx, pt.y - c.dy) in src
  }

  lemma CoverBlit(c: Cmd, a: Image, b: Image, src: Image)
    requires c.Blit? && a.Keys == b.Keys && Covers(c, a, src)
    ensures Blitted(a, src, c.dx, c.dy, c.rect) == Blitted(b, src, c.dx, c.dy, c.rect)
  {
    forall pt | pt in a ensures Blitted(a, src, c.dx, c.dy, c.rect)[pt] == Blitted(b, src, c.dx, c.dy, c.rect)[pt] {
      assert pt in b;
    }
  }

  /** A copy over the whole destination hides what was there before. */
  lemma {:induction false} CoverHides<P>(m: Screen<P>, m': Screen<P>, cs: seq<Cmd<P>>, c: Cmd<P>)
    requires c.Blit? && AllBlit(cs, c.dst, c.src) && c.src != c.dst && SameBut(m, m', c.dst)
    requires Covers(c, m[c.dst], Pic(m, c.src))
    ensures RunCmd(RunCmds(m', cs), c) == RunCmd(RunCmds(m, cs), c)
  {
    hide Blitted, Covers;
    BlitsKeep(m, cs, c.dst, c.src);
    BlitsKeep(m', cs, c.dst, c.src);
    CoverShape(c, m[c.dst], RunCmds(m, cs)[c.dst], Pic(m, c.src));
    CoverBlit(c, RunCmds(m, cs)[c.dst], RunCmds(m', cs)[c.dst], Pic(m, c.src));
  }

  lemma CoverShape(c: Cmd, a: Image, b: Image, src: Image)
    requires c.Blit? && a.Keys == b.Keys && Covers(c, a, src)
    ensures Covers(c, b, src)
  {
    forall pt | pt in b ensures c.rect.Has(pt) && Point(pt.x - c.dx, pt.y - c.dy) in src {
      assert pt in a;
    }
  }

  lemma {:induction false} BlitsKeep<P>(m: Screen<P>, cs: seq<Cmd<P>>, dst: P, src: P)
    requires AllBlit(cs, dst, src) && dst in m
    ensures RunCmds(m, cs) == m[dst := RunCmds(m, cs)[dst]] && RunCmds(m, cs)[dst].Keys == m[dst].Keys
  {
    if cs != [] { BlitsKeep(m, cs[..|cs| - 1], dst, src); }
  }
}
