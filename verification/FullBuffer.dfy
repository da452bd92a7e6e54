/** A run that fills the vertex buffer of the 3D batch: drawing at once would show what the batch loses. */
module FullBuffer {
  import opened Lists
  import opened Screens
  import opened Batch
  import opened Drawing
  import opened DrawingSession

  const PIXEL := Point(0, 0)

  /** How many rectangles with one texture the vertex buffer holds */
  const CAPACITY: nat := 5461

  /** A rectangle that makes every pixel one brighter, through a source texture */
  function Brighter(dst: Pixmap, src: Pixmap): (r: Job<Pixmap?>) {
    Job(dst, src, null, [(d: Image, s: Image, m: Image, pt: Point) => if pt in d then d[pt] + 1 else 0])
  }

  lemma OneBrighter(m: Screen<Pixmap?>, dst: Pixmap, src: Pixmap, i: int)
    requires dst in m && m[dst] == map[PIXEL := i]
    ensures RunJob(m, Brighter(dst, src)) == m[dst := map[PIXEL := i + 1]]
  {
    var j := Brighter(dst, src);
    assert RunDraws(m, j, 0) == m;
    assert Painted(m[dst], Pic(m, src), Pic(m, null), j.draws[0]) == map[PIXEL := i + 1] by {
      assert PIXEL in m[dst];
    }
    assert RunDraws(m, j, 1) == m[dst := Painted(m[dst], Pic(m, src), Pic(m, null), j.draws[0])];
  }

  lemma BrighterBytes(dst: Pixmap, src: Pixmap)
    ensures JobBytes(Brighter(dst, src), null) == 48
  {
    assert Times(1, 48) == 48;
  }

  lemma TableSmall(e: Engine)
    requires Idle(e)
    ensures |e.table| <= |e.all|
  {
    hide Booked;
    BufferFacts(e);
    BookedEntries(e.table, e.Refs());
    var held, all: set<Pixmap?> := set x | x in e.table :: x.pixmap, set p: Pixmap? | p in e.all;
    forall x | x in held ensures x in all {
      var k :| 0 <= k < |e.table| && e.table[k].pixmap == x;
    }
    SubsetSize(held, all);
    assert all == e.all;
  }

  lemma BookedEntries(table: seq<Entry<Pixmap?>>, refs: seq<Reference<Pixmap?>>)
    requires Booked(table, refs)
    ensures |set x | x in table :: x.pixmap| == |table|
  {
    EntriesSize(table);
  }

  /** The same operation over and over */
  function Repeat(op: Op, n: nat): (r: seq<Op>)
    ensures |r| == n && forall i {:trigger r[i]} :: 0 <= i < n ==> r[i] == op
  {
    if n == 0 then [] else Repeat(op, n - 1) + [op]
  }

  lemma StepsRepeat(s: Eager, op: Op, n: nat)
    ensures Steps(s, Repeat(op, n + 1)) == Step(Steps(s, Repeat(op, n)), op)
  {
    assert Repeat(op, n + 1)[..n] == Repeat(op, n);
  }

  /** Two pixmaps, one of them as bright as so many rectangles have made it */
  ghost predicate Lit(s: Eager, dst: Pixmap, src: Pixmap, i: nat) {
    s.Lives(dst) && s.Lives(src) && s.screen[dst] == map[PIXEL := i]
  }

  lemma LitMore(s: Eager, dst: Pixmap, src: Pixmap, i: nat)
    requires Lit(s, dst, src, i) && dst != src
    ensures Possible(s, Draw(Brighter(dst, src), false))
    ensures Lit(Step(s, Draw(Brighter(dst, src), false)), dst, src, i + 1)
  {
    OneBrighter(s.screen, dst, src, i);
  }

  /** One more rectangle waits. */
  method OneMore(e: Engine, dst: Pixmap, src: Pixmap, i: nat)
    requires Idle(e) && e.all == {dst, src} && dst != src && Lit(Abstract(e), dst, src, i)
    requires e.attribs == 48 * i && 48 * (i + 1) <= ATTRIB_SIZE
    modifies e, e.all
    ensures Idle(e) && e.attribs == 48 * (i + 1) && Lit(Abstract(e), dst, src, i + 1)
    ensures Abstract(e) == Step(old(Abstract(e)), Draw(Brighter(dst, src), false))
  {
    hide Idle, Abstract, Cut, Step, Possible;
    ghost var j, jobs := Brighter(dst, src), e.jobs;
    TableSmall(e);
    IdleBuffer(e);
    BrighterBytes(dst, src);
    CutExact(Abstract(e).screen, j, e.attribs, null);
    LitMore(Abstract(e), dst, src, i);
    DrawnIfRoom(Abstract(e), Draw(j, false), e.attribs);
    assert |{dst, src}| == 2;
    var _ := Perform(e, Draw(Brighter(dst, src), false));
    IdleBuffer(e);
    AllBytesAppend(jobs, j, null);
  }

  /** 5462 brackets of one rectangle with a source texture, all within one batch: the last one is lost, as
      it finds no room in the buffer that submitting each job at once would have emptied. */
  method LostDraw() returns (e: Engine, op: Op, ghost start: Eager)
    ensures Idle(e) && op.Draw?
    ensures forall i {:trigger Repeat(op, i)} :: 0 <= i <= CAPACITY ==> Possible(Steps(start, Repeat(op, i)), op)
    ensures Abstract(e) == Steps(start, Repeat(op, CAPACITY)) != Steps(start, Repeat(op, CAPACITY + 1))
    ensures e.attribs == 48 * CAPACITY && Step(Abstract(e), Shortened(op, e.attribs)) == Abstract(e)
  {
    hide Idle, Abstract, Step, Steps, Possible, Repeat, Lit, Shortened, Cut, AllBytes;
    var dst := MakePixmap();
    var src := MakePixmap();
    e := Begin(dst, src);
    start, op := Abstract(e), Draw(Brighter(dst, src), false);
    ghost var n := CAPACITY;
    StepsNone(start, op);
    for i := 0 to CAPACITY
      invariant Idle(e) && e.all == {dst, src} && e.attribs == 48 * i && Lit(Abstract(e), dst, src, i)
      invariant fresh(e) && fresh(dst) && fresh(src)
      invariant Abstract(e) == Steps(start, Repeat(op, i))
      invariant forall k {:trigger Repeat(op, k)} :: 0 <= k < i ==> Possible(Steps(start, Repeat(op, k)), op)
    {
      LitMore(Abstract(e), dst, src, i);
      StepsRepeat(start, op, i);
      OneMore(e, dst, src, i);
    }
    LitMore(Abstract(e), dst, src, n);
    StepsRepeat(start, op, n);
    Lost(Abstract(e), dst, src, n, e.attribs);
    IdleBuffer(e);
    var _ := Perform(e, op);
    IdleBuffer(e);
  }

  lemma StepsNone(s: Eager, op: Op)
    ensures Steps(s, Repeat(op, 0)) == s
  {
  }

  /** A rectangle that finds no room changes nothing, although it would show. */
  lemma Lost(s: Eager, dst: Pixmap, src: Pixmap, i: nat, used: nat)
    requires Lit(s, dst, src, i) && dst != src && used <= ATTRIB_SIZE < used + 48
    ensures var op := Draw(Brighter(dst, src), false);
            Step(s, Shortened(op, used)) == s != Step(s, op)
    ensures Cut(Brighter(dst, src), used, null).draws == []
  {
    hide RunJob;
    var j := Brighter(dst, src);
    OneBrighter(s.screen, dst, src, i);
    BrighterBytes(dst, src);
    CutExact(s.screen, j, used, null);
    assert Cut(j, used, null).draws == [];
    NothingDrawn(s.screen, Cut(j, used, null));
    assert map[PIXEL := i][PIXEL] != map[PIXEL := i + 1][PIXEL];
  }

  method MakePixmap() returns (p: Pixmap)
    ensures fresh(p) && p.Sized() && p.Balanced(0) && !p.solidFill && p.locks == 0 && !p.destroyed
    ensures p.data == map[PIXEL := 0]
  {
    p := new Pixmap(1, 1, false, map[PIXEL := 0]);
  }

  method Begin(dst: Pixmap, src: Pixmap) returns (e: Engine)
    requires forall p {:trigger p.Sized()} :: p == dst || p == src ==>
               && p.Sized() && p.Balanced(0) && !p.solidFill && p.locks == 0 && !p.destroyed
               && p.data == map[PIXEL := 0]
    ensures fresh(e) && Idle(e) && e.all == {dst, src} && e.attribs == 0 && Lit(Abstract(e), dst, src, 0)
  {
    e := Start({dst, src});
  }
}
