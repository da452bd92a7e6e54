/** Whole runs of the drawing engine: for every sequence of drawing operations, CPU accesses, timer ticks
    and destructions, what is seen is what drawing at once would have given, as far as the rectangles of 3D
    jobs find room in the vertex buffer that all queued jobs share. */
module DrawingSession {
  import opened Screens
  import opened Batch
  import opened Drawing
  import opened Lists

  datatype Op =
    | FillRects(p: Pixmap, color: Color, rects: seq<Rect>)
    | CopyRects(src: Pixmap, dst: Pixmap, blits: seq<Cmd<Pixmap?>>)
    | Draw(job: Job<Pixmap?>, alone: bool)  // `alone`: the job cannot wait with others
    | Read(p: Pixmap)
    | Write(p: Pixmap, img: Image)
    | Tick
    | Kill(p: Pixmap)

  // ---- The eager machine --------------------------------------------------------------------------

  datatype Eager = Eager(screen: Screen<Pixmap?>, dead: set<Pixmap?>) {
    ghost predicate Lives(p: Pixmap?) {
      p in screen && p !in dead
    }
  }

  function FillCmds(p: Pixmap, c: Color, rects: seq<Rect>): (r: seq<Cmd<Pixmap?>>)
    ensures |r| == |rects|
  {
    if rects == [] then [] else FillCmds(p, c, rects[..|rects| - 1]) + [Fill(p, rects[|rects| - 1], c)]
  }

  /** What the X server may ask for: live pixmaps, clipped copies between different ones. */
  ghost predicate Possible(s: Eager, op: Op) {
    match op
    case FillRects(p, _, _) => s.Lives(p)
    case CopyRects(src, dst, blits) =>
      && s.Lives(src) && s.Lives(dst) && src != dst
      && forall c {:trigger c in blits} :: c in blits ==>
           c.Blit? && c.dst == dst && c.src == src && Reaches(c, s.screen[dst], s.screen[src])
    case Draw(j, _) => s.Lives(j.dst) && (j.src != null ==> s.Lives(j.src)) && (j.mask != null ==> s.Lives(j.mask))
    case Read(p) => s.Lives(p)
    case Write(p, img) => s.Lives(p) && img.Keys == s.screen[p].Keys
    case Tick => true
    case Kill(p) => s.Lives(p)
  }

  ghost function Step(s: Eager, op: Op): (r: Eager) {
    match op
    case FillRects(p, c, rects) => s.(screen := RunCmds(s.screen, FillCmds(p, c, rects)))
    case CopyRects(_, _, blits) => s.(screen := RunCmds(s.screen, blits))
    case Draw(j, _) => s.(screen := RunJob(s.screen, j))
    case Write(p, img) => s.(screen := s.screen[p := img])
    case Kill(p) => s.(dead := s.dead + {p})
    case _ => s
  }

  ghost function Steps(s: Eager, ops: seq<Op>): (r: Eager) {
    if ops == [] then s else Step(Steps(s, ops[..|ops| - 1]), ops[|ops| - 1])
  }

  /** The pictures that the reads of a run return */
  ghost function Reads(s: Eager, ops: seq<Op>): (r: seq<Image>) {
    if ops == [] then [] else
      var before, op := ops[..|ops| - 1], ops[|ops| - 1];
      Reads(s, before) + if op.Read? then [Pic(Steps(s, before).screen, op.p)] else []
  }

  // ---- What an operation shows, in coordinates ----------------------------------------------------

  /** How many rectangles an operation draws */
  ghost function Rectangles(op: Op): (n: nat) {
    match op
    case FillRects(_, _, rects) => |rects|
    case CopyRects(_, _, blits) => |blits|
    case Draw(j, _) => |j.draws|
    case _ => 0
  }

  /** What rectangle `i` of an operation does to the screen */
  ghost predicate Stroke(op: Op, i: nat, m: Screen<Pixmap?>, m': Screen<Pixmap?>)
    requires i < Rectangles(op)
  {
    match op
    case FillRects(p, c, rects) => FillShown(m, m', p, rects[i].x1, rects[i].y1, rects[i].x2, rects[i].y2, c)
    case CopyRects(src, dst, blits) =>
      var c := blits[i];
      c.Blit? && CopyShown(m, m', dst, src, c.dx, c.dy, c.rect.x1, c.rect.y1, c.rect.x2, c.rect.y2)
    case Draw(j, _) => PaintShown(m, m', j.dst, j.src, j.mask, j.draws[i])
  }

  /** The screen from rectangle to rectangle: `ms[i]` is what is seen when `i` of them are drawn. */
  ghost predicate Strokes(op: Op, ms: seq<Screen<Pixmap?>>) {
    && |ms| == Rectangles(op) + 1
    && forall i: nat {:trigger ms[i]} :: i < Rectangles(op) ==> Stroke(op, i, ms[i], ms[i + 1])
  }

  /** The screen when `i` rectangles are drawn */
  ghost function After(m: Screen<Pixmap?>, op: Op, i: nat): (r: Screen<Pixmap?>)
    requires i <= Rectangles(op)
  {
    match op
    case FillRects(p, c, rects) => RunCmds(m, FillCmds(p, c, rects[..i]))
    case CopyRects(_, _, blits) => RunCmds(m, blits[..i])
    case Draw(j, _) => RunDraws(m, j, i)
    case _ => m
  }

  lemma FillStroke(m: Screen<Pixmap?>, p: Pixmap, c: Color, rects: seq<Rect>, i: nat)
    requires i < |rects| && p in m
    ensures Stroke(FillRects(p, c, rects), i, RunCmds(m, FillCmds(p, c, rects[..i])),
                   RunCmds(m, FillCmds(p, c, rects[..i + 1])))
  {
    hide FillShown;
    var cs := FillCmds(p, c, rects[..i]);
    assert rects[..i + 1] == rects[..i] + [rects[i]];
    FillCmdsAppend(p, c, rects[..i], rects[i]);
    RunCmdsAppend(m, cs, Fill(p, rects[i], c));
    FillIs(RunCmds(m, cs), p, rects[i], c);
  }

  lemma CopyStroke(s: Eager, src: Pixmap, dst: Pixmap, blits: seq<Cmd<Pixmap?>>, i: nat)
    requires Possible(s, CopyRects(src, dst, blits)) && i < |blits|
    ensures Stroke(CopyRects(src, dst, blits), i, RunCmds(s.screen, blits[..i]), RunCmds(s.screen, blits[..i + 1]))
  {
    hide CopyShown;
    var m, c := RunCmds(s.screen, blits[..i]), blits[i];
    assert c in blits && blits[..i + 1] == blits[..i] + [c];
    RunCmdsAppend(s.screen, blits[..i], c);
    CmdsShape(s.screen, blits[..i], src);
    CmdsShape(s.screen, blits[..i], dst);
    ReachesShape(c, s.screen[dst], s.screen[src], m[dst], m[src]);
    BlitIs(m, c);
  }

  /** The rectangles of an operation are drawn one after the other, and each one shows what its coordinates
      and pictures say. */
  lemma StepStrokes(s: Eager, op: Op) returns (ms: seq<Screen<Pixmap?>>)
    requires Possible(s, op)
    ensures Strokes(op, ms) && ms[0] == s.screen
    ensures Rectangles(op) > 0 ==> ms[|ms| - 1] == Step(s, op).screen
  {
    hide Stroke, RunCmds, RunDraws, Reaches;
    ms := seq(Rectangles(op) + 1, i requires 0 <= i <= Rectangles(op) => After(s.screen, op, i));
    forall i: nat | i < Rectangles(op) ensures Stroke(op, i, ms[i], ms[i + 1]) {
      match op
      case FillRects(p, c, rects) => FillStroke(s.screen, p, c, rects, i);
      case CopyRects(src, dst, blits) => CopyStroke(s, src, dst, blits, i);
      case Draw(j, _) => DrawStroke(s.screen, op, i);
    }
    match op
    case FillRects(_, _, rects) => assert rects[..|rects|] == rects; NothingRun(s.screen);
    case CopyRects(_, _, blits) => assert blits[..|blits|] == blits; NothingRun(s.screen);
    case Draw(j, _) => NothingPainted(s.screen, j);
    case _ =>
  }

  lemma DrawStroke(m: Screen<Pixmap?>, op: Op, i: nat)
    requires op.Draw? && i < |op.job.draws| && op.job.dst in m
    ensures Stroke(op, i, RunDraws(m, op.job, i), RunDraws(m, op.job, i + 1))
  {
    hide PaintShown;
    PaintIs(m, op.job, i);
  }

  lemma NothingRun(m: Screen<Pixmap?>)
    ensures RunCmds(m, []) == m
  {
  }

  lemma NothingPainted(m: Screen<Pixmap?>, j: Job<Pixmap?>)
    ensures RunDraws(m, j, 0) == m
  {
  }

  // ---- The lazy machine does the same -------------------------------------------------------------

  ghost function Dead(e: Engine): (r: set<Pixmap?>)
    reads e.all`destroyed
  {
    set p: Pixmap? | p in e.all && p.destroyed :: p
  }

  ghost predicate Idle(e: Engine)
    reads e, e.all
  {
    e.Valid() && Quiet(e) && forall p {:trigger p in e.all} :: p in e.all ==> p.locks == 0
  }

  /** An engine that was just made is idle, and shows what is in memory. */
  method Start(all: set<Pixmap>) returns (e: Engine)
    requires forall p {:trigger p in all} :: p in all ==> p.Sized() && p.Balanced(0) && !p.solidFill && p.locks == 0
    ensures fresh(e) && e.all == all && Idle(e) && e.jobs == [] && e.attribs == 0
    ensures forall p {:trigger p in all} :: p in all ==> p in e.Screen() && e.Screen()[p] == p.data
  {
    e := new Engine(all);
    forall p | p in all ensures p in e.Screen() && e.Screen()[p] == p.data {
      NothingQueued(e.Solids());
      MemorySeen(e, p);
    }
  }

  ghost function Abstract(e: Engine): (r: Eager)
    reads e, e.all
  {
    Eager(e.Screen(), Dead(e))
  }

  lemma ScreenShape(e: Engine, p: Pixmap)
    requires e.Valid() && p in e.all
    ensures p in e.Screen() && e.Screen()[p].Keys == p.data.Keys
  {
    ShownSolid(e, p);
    CmdsShape(e.Shown(), e.stream, p);
  }

  lemma FillCmdsAppend(p: Pixmap, c: Color, rects: seq<Rect>, r: Rect)
    ensures FillCmds(p, c, rects + [r]) == FillCmds(p, c, rects) + [Fill(p, r, c)]
  {
    assert (rects + [r])[..|rects|] == rects;
  }

  method DoFill(e: Engine, p: Pixmap, c: Color, rects: seq<Rect>)
    requires Idle(e) && p in e.all && !p.destroyed
    modifies e, e.all`data, e.all`solidFill, e.all`solidColor, e.all`refcnt, e.all`freezerLockcnt, e.all`releases,
             e.all`locks
    ensures Idle(e) && e.Screen() == RunCmds(old(e.Screen()), FillCmds(p, c, rects))
    ensures e.jobs == old(e.jobs) || e.jobs == []
    ensures rects == [Rect(0, 0, p.width, p.height)] && !p.scanout ==> p.solidFill && p.solidColor == c
  {
    hide Engine.Valid, Engine.Shown, RunCmd, Untouched, AllFill, FillShown;
    PrepareSolid(e, p, c);
    ghost var locks := e.Locks();
    for i := 0 to |rects|
      invariant e.Valid() && e.FillBracket(p) && e.color == c && !e.in2dFlush && e.wrap3d == 0 && e.Locks() == locks
      invariant e.Screen() == RunCmds(old(e.Screen()), FillCmds(p, c, rects[..i]))
      invariant e.jobs == old(e.jobs) || e.jobs == []
      invariant e.optimize <==> !p.scanout
      invariant i == 0 ==> e.stream == []
      invariant i == 1 && !p.scanout && rects[0] == Rect(0, 0, p.width, p.height) ==>
                  e.stream == [] && p.solidFill && p.solidColor == c
    {
      assert rects[..i + 1] == rects[..i] + [rects[i]];
      FillCmdsAppend(p, c, rects[..i], rects[i]);
      RunCmdsAppend(old(e.Screen()), FillCmds(p, c, rects[..i]), Fill(p, rects[i], c));
      SolidOp(e, p, rects[i]);
    }
    assert rects[..|rects|] == rects;
    DoneSolid(e, p);
    forall q | q in e.all ensures q.locks == 0 {
      assert q.locks == e.Locks()[q];
    }
  }

  /** Whether a copy stays inside its source depends on the shapes of the two pixmaps only. */
  lemma ReachesShape(c: Cmd<Pixmap?>, a: Image, b: Image, a': Image, b': Image)
    requires c.Blit? && a.Keys == a'.Keys && b.Keys == b'.Keys && Reaches(c, a, b)
    ensures Reaches(c, a', b')
  {
    forall pt | pt in a' && c.rect.Has(pt) ensures Point(pt.x - c.dx, pt.y - c.dy) in b' {
      assert pt in a && Point(pt.x - c.dx, pt.y - c.dy) in b.Keys;
    }
  }

  method OneCopy(e: Engine, dst: Pixmap, src: Pixmap, c: Cmd<Pixmap?>, ghost start: Screen<Pixmap?>)
    requires e.Valid() && e.CopyBracket(dst, src) && src in e.all && dst in e.all
    requires c.Blit? && c.dst == dst && c.src == src && dst in start && src in start
    requires Reaches(c, start[dst], start[src])
    requires dst in e.Screen() && src in e.Screen()
    requires start[dst].Keys == e.Screen()[dst].Keys && start[src].Keys == e.Screen()[src].Keys
    modifies e, e.all`data, e.all`solidFill, e.all`solidColor, e.all`refcnt, e.all`freezerLockcnt, e.all`releases,
             e.all`locks
    ensures e.Valid() && e.CopyBracket(dst, src) && e.Screen() == RunCmd(old(e.Screen()), c)
    ensures e.Locks() == old(e.Locks()) && e.Converted(src) == old(e.Converted(src))
    ensures e.jobs == old(e.jobs) || e.jobs == []
  {
    hide Engine.Valid, Engine.Screen, Engine.CopyBracket, RunCmd, Reaches;
    ScreenShape(e, src);
    ScreenShape(e, dst);
    ReachesShape(c, start[dst], start[src], dst.data, src.data);
    CopyOp(e, dst, src, c);
  }

  method DoCopy(e: Engine, src: Pixmap, dst: Pixmap, blits: seq<Cmd<Pixmap?>>)
    requires Idle(e) && Possible(Abstract(e), CopyRects(src, dst, blits)) && src in e.all && dst in e.all
    modifies e, e.all`data, e.all`solidFill, e.all`solidColor, e.all`refcnt, e.all`freezerLockcnt, e.all`releases,
             e.all`locks
    ensures Idle(e) && e.Screen() == RunCmds(old(e.Screen()), blits)
    ensures e.jobs == old(e.jobs) || e.jobs == []
  {
    hide Engine.Valid, Engine.Screen, RunCmd, Reaches, Engine.FillBracket;
    ghost var start := e.Screen();
    assert src !in Dead(e) && dst !in Dead(e);
    var hint: bool, began: bool := *, *;
    PrepareCopy(e, src, dst, hint, began);
    ghost var locks, converted := e.Locks(), e.Converted(src);
    for i := 0 to |blits|
      invariant e.Valid() && e.CopyBracket(dst, src) && e.Locks() == locks && e.Converted(src) == converted
      invariant e.Screen() == RunCmds(start, blits[..i])
      invariant e.jobs == old(e.jobs) || e.jobs == []
    {
      assert blits[..i + 1] == blits[..i] + [blits[i]] && blits[i] in blits;
      RunCmdsAppend(start, blits[..i], blits[i]);
      CmdsShape(start, blits[..i], src);
      CmdsShape(start, blits[..i], dst);
      OneCopy(e, dst, src, blits[i], start);
    }
    assert blits[..|blits|] == blits;
    DoneCopy(e, dst, src);
    forall q | q in e.all ensures q.locks == 0 {
      assert q.locks == e.Locks()[q];
    }
  }

  lemma LivesMeans(e: Engine, p: Pixmap?)
    requires Abstract(e).Lives(p)
    ensures p != null && p in e.all && !p.destroyed
  {
    assert p.destroyed ==> p in Dead(e);
  }

  method DoDraw(e: Engine, j: Job<Pixmap?>, alone: bool)
    requires Idle(e) && Possible(Abstract(e), Draw(j, alone))
    modifies e, e.all`data, e.all`solidFill, e.all`solidColor, e.all`refcnt, e.all`freezerLockcnt, e.all`releases,
             e.all`locks
    ensures old(e.attribs) <= ATTRIB_SIZE && Idle(e)
    ensures e.Screen() == RunJob(old(e.Screen()), Cut(j, old(e.attribs), null))
    ensures e.jobs == QueueAfter(old(e.jobs), j, alone, old(e.attribs), old(|e.table|))
    ensures FirstThatFit(j, Cut(j, old(e.attribs), null), old(e.attribs), null)
  {
    hide Engine.Valid, Engine.Screen, RunJob, Cut, FirstThatFit;
    BufferFacts(e);
    LivesMeans(e, j.dst);
    if j.src != null { LivesMeans(e, j.src); }
    if j.mask != null { LivesMeans(e, j.mask); }
    ghost var locks := e.Locks();
    Composite(e, j, alone);
    forall q | q in e.all ensures q.locks == 0 {
      assert q.locks == e.Locks()[q] == locks[q];
    }
  }

  method DoRead(e: Engine, p: Pixmap) returns (img: Image)
    requires Idle(e) && p in e.all && !p.destroyed
    modifies e, e.all`data, e.all`solidFill, e.all`solidColor, e.all`refcnt, e.all`freezerLockcnt, e.all`releases,
             e.all`locks
    ensures Idle(e) && e.Screen() == old(e.Screen()) && img == Pic(e.Screen(), p)
    ensures e.jobs == old(e.jobs) || e.jobs == []
  {
    hide Engine.Valid, Engine.Screen;
    ghost var locks := e.Locks();
    img := CpuRead(e, p);
    forall q | q in e.all ensures q.locks == 0 {
      assert q.locks == e.Locks()[q] == locks[q];
    }
  }

  method DoWrite(e: Engine, p: Pixmap, img: Image)
    requires Idle(e) && p in e.all && !p.destroyed && img.Keys == p.data.Keys
    modifies e, e.all`data, e.all`solidFill, e.all`solidColor, e.all`refcnt, e.all`freezerLockcnt, e.all`releases,
             e.all`locks
    ensures Idle(e) && e.Screen() == old(e.Screen())[p := img]
    ensures e.jobs == old(e.jobs) || e.jobs == []
  {
    hide Engine.Valid, Engine.Screen;
    ghost var locks := e.Locks();
    CpuWrite(e, p, img);
    forall q | q in e.all ensures q.locks == 0 {
      assert q.locks == e.Locks()[q] == locks[q];
    }
  }

  method DoTick(e: Engine)
    requires Idle(e)
    modifies e, e.all`data, e.all`refcnt, e.all`freezerLockcnt, e.all`releases
    ensures Idle(e) && e.Screen() == old(e.Screen())
    ensures e.jobs == []
  {
    hide Engine.Valid, Engine.Screen;
    FlushTimer(e);
  }

  method DoKill(e: Engine, p: Pixmap)
    requires Idle(e) && p in e.all && !p.destroyed
    modifies p`destroyed, p`refcnt, p`releases
    ensures Idle(e) && e.Screen() == old(e.Screen()) && Dead(e) == old(Dead(e)) + {p}
  {
    hide Engine.Valid, Engine.Screen;
    Destroy(e, p);
  }

  // ---- Runs ---------------------------------------------------------------------------------------

  /** What is left of an operation when `used` bytes of the vertex buffer are taken */
  ghost function Shortened(op: Op, used: nat): (r: Op)
    requires used <= ATTRIB_SIZE
  {
    if op.Draw? then op.(job := Cut(op.job, used, null)) else op
  }

  ghost predicate HasRoom(op: Op, used: nat) {
    op.Draw? ==> Fits(op.job, used, null)
  }

  /** The jobs that wait after a bracket */
  ghost function QueueAfter(jobs: seq<Job<Pixmap?>>, j: Job<Pixmap?>, alone: bool, used: nat, entries: nat)
    : (r: seq<Job<Pixmap?>>)
    requires used <= ATTRIB_SIZE
  {
    var cut := Cut(j, used, null);
    var pixmaps := entries + 1 + (if j.src == null then 0 else 1) + (if j.mask == null then 0 else 1);
    if cut.draws == [] then jobs else if pixmaps <= 63 && !alone then jobs + [cut] else []
  }

  /** One operation on the lazy machine is the same operation on the eager one, but for the rectangles that
      find no room in the vertex buffer. */
  method Perform(e: Engine, op: Op) returns (read: seq<Image>)
    requires Idle(e) && Possible(Abstract(e), op)
    modifies e, e.all
    ensures old(e.attribs) <= ATTRIB_SIZE
    ensures Idle(e) && Abstract(e) == Step(old(Abstract(e)), Shortened(op, old(e.attribs)))
    ensures op.Draw? && Shows(old(Abstract(e)).screen, op.job) ==>
              (Abstract(e) == Step(old(Abstract(e)), op) <==> Fits(op.job, old(e.attribs), null))
    ensures read == if op.Read? then [Pic(old(Abstract(e)).screen, op.p)] else []
    ensures if op.Draw? then e.jobs == QueueAfter(old(e.jobs), op.job, op.alone, old(e.attribs), old(|e.table|))
            else e.jobs == old(e.jobs) || e.jobs == []
    ensures op.Tick? ==> e.jobs == []
    ensures e.attribs == Sum(Taken(e.jobs, null)) <= 256 * 1024
    ensures op.Draw? ==> FirstThatFit(op.job, Shortened(op, old(e.attribs)).job, old(e.attribs), null)
    ensures Rectangles(Shortened(op, old(e.attribs))) > 0 ==>
              exists ms :: Strokes(Shortened(op, old(e.attribs)), ms)
                && ms[0] == old(e.Screen()) && ms[|ms| - 1] == e.Screen()
    ensures op.FillRects? && op.rects == [Rect(0, 0, op.p.width, op.p.height)] && !op.p.scanout ==>
              op.p.solidFill && op.p.solidColor == op.color
  {
    hide Engine.Valid, Engine.Screen, RunCmd, RunCmds, RunJob, Reaches, Cut, Shows, Fits, Strokes, FirstThatFit, Taken,
         Sum, QueueAfter;
    BufferFacts(e);
    DrawnIfRoom(Abstract(e), op, e.attribs);
    ShortenedPossible(Abstract(e), op, e.attribs);
    ghost var ms := StepStrokes(Abstract(e), Shortened(op, e.attribs));
    read := [];
    match op {
      case FillRects(p, c, rects) =>
        LivesMeans(e, p);
        DoFill(e, p, c, rects);
      case CopyRects(src, dst, blits) =>
        LivesMeans(e, src);
        LivesMeans(e, dst);
        DoCopy(e, src, dst, blits);
      case Draw(j, alone) =>
        DoDraw(e, j, alone);
      case Read(p) =>
        LivesMeans(e, p);
        var img := DoRead(e, p);
        read := [img];
      case Write(p, img) =>
        LivesMeans(e, p);
        ScreenShape(e, p);
        DoWrite(e, p, img);
      case Tick =>
        DoTick(e);
      case Kill(p) =>
        LivesMeans(e, p);
        DoKill(e, p);
    }
    IdleBuffer(e);
    BytesAre(e.jobs, null);
  }

  /** An operation on the lazy machine is the same one on the eager machine if the vertex buffer has room
      for it; and only then, if every rectangle of it shows. */
  lemma DrawnIfRoom(s: Eager, op: Op, used: nat)
    requires used <= ATTRIB_SIZE
    ensures HasRoom(op, used) ==> Step(s, Shortened(op, used)) == Step(s, op)
    ensures op.Draw? && Shows(s.screen, op.job) ==>
              (Step(s, Shortened(op, used)) == Step(s, op) <==> HasRoom(op, used))
  {
    hide Cut, RunJob, Shows, Fits;
    if op.Draw? { CutExact(s.screen, op.job, used, null); }
  }

  /** A bound on the bytes that the vertex buffer holds after a run, from the operations alone */
  ghost function Tally(used: nat, ops: seq<Op>): (n: nat) {
    if ops == [] then used else
      var n, op := Tally(used, ops[..|ops| - 1]), ops[|ops| - 1];
      Grown(op, n)
  }

  ghost function Grown(op: Op, n: nat): (r: nat) {
    if op.Tick? then 0 else if op.Draw? then n + JobBytes(op.job, null) else n
  }

  /** Between two ticks there are never more vertices than the buffer holds. */
  ghost predicate Modest(used: nat, ops: seq<Op>) {
    forall i {:trigger ops[i]} :: 0 <= i < |ops| ==> HasRoom(ops[i], Tally(used, ops[..i]))
  }

  lemma ShortenedPossible(s: Eager, op: Op, used: nat)
    requires Possible(s, op) && used <= ATTRIB_SIZE
    ensures Possible(s, Shortened(op, used))
  {
    hide Reaches;
  }

  lemma CutBytes(j: Job<Pixmap?>, used: nat)
    requires used <= ATTRIB_SIZE
    ensures JobBytes(Cut(j, used, null), null) <= JobBytes(j, null)
  {
    var each := RectBytes(j, null);
    var k := Room(used, each, |j.draws|);
    if k < |j.draws| { TimesGrow(k, |j.draws|, each); }
  }

  /** How the vertex buffer fills */
  lemma BytesAfter(jobs: seq<Job<Pixmap?>>, op: Op, used: nat, entries: nat, after: seq<Job<Pixmap?>>)
    requires used == AllBytes(jobs, null) <= ATTRIB_SIZE
    requires if op.Draw? then after == QueueAfter(jobs, op.job, op.alone, used, entries)
             else after == jobs || after == []
    requires op.Tick? ==> after == []
    ensures AllBytes(after, null) <= Grown(op, used)
  {
    hide Cut, JobBytes;
    if op.Draw? {
      CutBytes(op.job, used);
      AllBytesAppend(jobs, Cut(op.job, used, null), null);
    }
  }

  lemma QueueGrows(jobs: seq<Job<Pixmap?>>, op: Op, used: nat, entries: nat, after: seq<Job<Pixmap?>>)
    requires used <= ATTRIB_SIZE
    requires if op.Draw? then after == QueueAfter(jobs, op.job, op.alone, used, entries)
             else after == jobs || after == []
    ensures after == [] || jobs <= after
  {
  }

  /** Two eager machines with the same pixmaps */
  ghost predicate Alike(s: Eager, t: Eager) {
    && s.dead == t.dead && s.screen.Keys == t.screen.Keys
    && forall p {:trigger s.screen[p]} {:trigger t.screen[p]} :: p in s.screen ==> s.screen[p].Keys == t.screen[p].Keys
  }

  /** An operation keeps the shape of every pixmap. */
  lemma StepShape(s: Eager, op: Op)
    requires Possible(s, op)
    ensures Alike(s.(dead := Step(s, op).dead), Step(s, op))
    ensures Step(s, op).dead == s.dead + if op.Kill? then {op.p} else {}
  {
    hide RunCmds, RunJob, Reaches;
    var m := Step(s, op).screen;
    forall p | p in s.screen ensures p in m && m[p].Keys == s.screen[p].Keys {
      match op
      case FillRects(q, c, rects) => CmdsShape(s.screen, FillCmds(q, c, rects), p);
      case CopyRects(_, _, blits) => CmdsShape(s.screen, blits, p);
      case Draw(j, _) => JobKeys(s.screen, j, p);
      case _ =>
    }
  }

  lemma JobKeys(m: Screen<Pixmap?>, j: Job<Pixmap?>, p: Pixmap?)
    requires p in m
    ensures p in RunJob(m, j) && RunJob(m, j)[p].Keys == m[p].Keys
  {
    DrawsWriteOne(m, j, |j.draws|);
  }

  /** Whether the X server may ask for something depends on the pixmaps and their shapes only. */
  lemma PossibleAlike(s: Eager, t: Eager, op: Op)
    requires Alike(s, t) && Possible(s, op)
    ensures Possible(t, op)
  {
    hide Reaches;
    if op.CopyRects? {
      forall c | c in op.blits ensures Reaches(c, t.screen[op.dst], t.screen[op.src]) {
        ReachesShape(c, s.screen[op.dst], s.screen[op.src], t.screen[op.dst], t.screen[op.src]);
      }
    }
  }

  lemma StepAlike(s: Eager, t: Eager, op: Op, used: nat)
    requires Alike(s, t) && Possible(s, op) && used <= ATTRIB_SIZE
    ensures Possible(t, op) && Possible(t, Shortened(op, used)) && Alike(Step(s, op), Step(t, Shortened(op, used)))
  {
    hide Reaches, RunCmds, RunJob, Step;
    PossibleAlike(s, t, op);
    StepShape(s, op);
    StepShape(t, Shortened(op, used));
  }

  /** A run in which nothing is shortened */
  ghost predicate AllRoom(ops: seq<Op>, used: seq<nat>) {
    |used| == |ops| && forall i {:trigger ops[i]} :: 0 <= i < |ops| ==> HasRoom(ops[i], used[i])
  }

  /** What is left of a run when the vertex buffer holds so much before each operation */
  ghost predicate ShortenedRun(ops: seq<Op>, used: seq<nat>, cut: seq<Op>) {
    && |used| == |cut| == |ops|
    && forall i {:trigger cut[i]} :: 0 <= i < |ops| ==> used[i] <= ATTRIB_SIZE && cut[i] == Shortened(ops[i], used[i])
  }

  lemma ShortenedNothing(ops: seq<Op>, used: seq<nat>, cut: seq<Op>)
    requires ShortenedRun(ops, used, cut) && AllRoom(ops, used)
    ensures cut == ops
  {
    hide Cut, Fits;
    forall i | 0 <= i < |ops| ensures cut[i] == ops[i] {
      assert cut[i] == cut[i] && HasRoom(ops[i], used[i]);
      if ops[i].Draw? { CutExact<Pixmap?>(map[], ops[i].job, used[i], null); }
    }
  }

  lemma ShortenedMore(ops: seq<Op>, used: seq<nat>, cut: seq<Op>, op: Op, n: nat)
    requires ShortenedRun(ops, used, cut) && n <= ATTRIB_SIZE
    ensures ShortenedRun(ops + [op], used + [n], cut + [Shortened(op, n)])
  {
    hide Shortened;
    var ops', used', cut' := ops + [op], used + [n], cut + [Shortened(op, n)];
    forall i | 0 <= i < |ops'| ensures used'[i] <= ATTRIB_SIZE && cut'[i] == Shortened(ops'[i], used'[i]) {
      if i < |ops| { assert cut[i] == cut'[i]; }
    }
  }

  /** One step of a run: `s` is where the eager machine would be had nothing been shortened. */
  method Advance(e: Engine, op: Op, ghost s: Eager) returns (read: seq<Image>)
    requires Idle(e) && Alike(s, Abstract(e)) && Possible(s, op)
    modifies e, e.all
    ensures old(e.attribs) <= ATTRIB_SIZE && Idle(e) && Alike(Step(s, op), Abstract(e))
    ensures var cut := Shortened(op, old(e.attribs));
            && Abstract(e) == Step(old(Abstract(e)), cut)
            && read == if cut.Read? then [Pic(old(Abstract(e)).screen, cut.p)] else []
    ensures e.attribs <= Grown(op, old(e.attribs))
    ensures e.jobs == [] || old(e.jobs) <= e.jobs
  {
    hide Idle, Abstract, Possible, Step, Alike, Grown, QueueAfter, Cut;
    ghost var jobs, entries, bytes := e.jobs, |e.table|, e.attribs;
    IdleBuffer(e);
    StepAlike(s, Abstract(e), op, bytes);
    read := Perform(e, op);
    IdleBuffer(e);
    QueueGrows(jobs, op, bytes, entries, e.jobs);
    BytesAfter(jobs, op, bytes, entries, e.jobs);
  }

  /** The lazy machine refines the eager one, but for the rectangles that find no room in the vertex
      buffer: `cut` is what is drawn. It is everything if each operation finds room, and that is so in
      particular if between two ticks there are never more vertices than the buffer holds. */
  method Run(e: Engine, ops: seq<Op>) returns (reads_: seq<Image>, ghost used: seq<nat>, ghost cut: seq<Op>)
    requires Idle(e)
    requires forall i {:trigger ops[i]} :: 0 <= i < |ops| ==> Possible(Steps(Abstract(e), ops[..i]), ops[i])
    modifies e, e.all
    ensures Idle(e) && ShortenedRun(ops, used, cut)
    ensures Abstract(e) == Steps(old(Abstract(e)), cut) && reads_ == Reads(old(Abstract(e)), cut)
    ensures forall i {:trigger used[i]} :: 0 <= i < |ops| ==> used[i] <= Tally(old(e.attribs), ops[..i])
    ensures AllRoom(ops, used) || Modest(old(e.attribs), ops) ==>
              Abstract(e) == Steps(old(Abstract(e)), ops) && reads_ == Reads(old(Abstract(e)), ops)
  {
    hide Idle, Abstract, Possible, Step, Shortened, HasRoom, Alike, ShortenedRun, AllRoom, Modest, Grown;
    reads_, used, cut := [], [], [];
    ghost var start, n := Abstract(e), e.attribs;
    AlikeSelf(start);
    NothingShortened();
    for i := 0 to |ops|
      invariant Idle(e) && |used| == |cut| == i && ShortenedRun(ops[..i], used, cut)
      invariant Alike(Steps(start, ops[..i]), Abstract(e))
      invariant Abstract(e) == Steps(start, cut) && reads_ == Reads(start, cut)
      invariant e.attribs <= Tally(n, ops[..i])
      invariant forall k {:trigger used[k]} :: 0 <= k < i ==> used[k] <= Tally(n, ops[..k])
    {
      assert ops[..i + 1][..i] == ops[..i] && ops[..i + 1] == ops[..i] + [ops[i]];
      ghost var bytes := e.attribs;
      var read := Advance(e, ops[i], Steps(start, ops[..i]));
      reads_ := reads_ + read;
      ShortenedMore(ops[..i], used, cut, ops[i], bytes);
      GrownMore(ops[i], bytes, Tally(n, ops[..i]));
      ghost var cut' := cut + [Shortened(ops[i], bytes)];
      assert cut'[..i] == cut && cut'[i] == Shortened(ops[i], bytes);
      used, cut := used + [bytes], cut';
    }
    assert ops[..|ops|] == ops;
    if Modest(n, ops) { ModestRoom(n, ops, used); }
    if AllRoom(ops, used) { ShortenedNothing(ops, used, cut); }
  }

  lemma NothingShortened()
    ensures ShortenedRun([], [], [])
  {
  }

  lemma GrownMore(op: Op, m: nat, n: nat)
    requires m <= n
    ensures Grown(op, m) <= Grown(op, n)
  {
  }

  lemma ModestRoom(n: nat, ops: seq<Op>, used: seq<nat>)
    requires Modest(n, ops) && |used| == |ops|
    requires forall i {:trigger used[i]} :: 0 <= i < |ops| ==> used[i] <= Tally(n, ops[..i])
    ensures AllRoom(ops, used)
  {
    forall i | 0 <= i < |ops| ensures HasRoom(ops[i], used[i]) {
      assert used[i] <= Tally(n, ops[..i]) && HasRoom(ops[i], Tally(n, ops[..i]));
    }
  }

  lemma AlikeSelf(s: Eager)
    ensures Alike(s, s)
  {
  }

  lemma IdleBuffer(e: Engine)
    requires Idle(e)
    ensures e.attribs == AllBytes(e.jobs, null) <= ATTRIB_SIZE
  {
    BufferFacts(e);
  }
}
