/** The drawing contexts of the optimization passes, src/exa/optimizations.c: `tegra_exa_wrap_state` and
    `tegra_exa_unwrap_state` swap the command stream and the scratch parameters, and hand the fences over. */
module OptContext {
  const ENGINES := 2
  const CONTEXTS := 3  // TEGRA_OPT_SOLID, TEGRA_OPT_COPY, TEGRA_OPT_3D

  datatype Fence = Poisoned | NoFence | Submitted(seqno: nat)

  datatype Scratch = Scratch(color: int, optimize: bool, ops: nat)

  /** The same for each engine */
  function Repeat(f: Fence): (r: seq<Fence>)
    ensures |r| == ENGINES && forall k {:trigger r[k]} :: 0 <= k < ENGINES ==> r[k] == f
  {
    seq(ENGINES, _ => f)
  }

  /** `struct tegra_stream` */
  class Stream {
    var seqno: nat
    var lastFence: seq<Fence>

    constructor (live: bool)
      ensures seqno == 0 && lastFence == Repeat(if live then NoFence else Poisoned)
    {
      seqno := 0;
      lastFence := Repeat(if live then NoFence else Poisoned);
    }
  }

  /** `struct tegra_optimization_state` */
  class OptState {
    const cmds: Stream
    var scratch: Scratch
    var scratchTmp: Scratch
    var cmdsTmp: Stream?
    var wrapcnt: nat

    constructor (cmds: Stream, scratch: Scratch)
      ensures this.cmds == cmds && this.scratch == scratch && wrapcnt == 0
    {
      this.cmds, this.scratch, this.scratchTmp, cmdsTmp, wrapcnt := cmds, scratch, scratch, null, 0;
    }
  }

  predicate AllPoisoned(f: seq<Fence>) {
    forall k :: 0 <= k < |f| ==> f[k].Poisoned?
  }

  predicate Clean(f: seq<Fence>) {
    forall k :: 0 <= k < |f| ==> !f[k].Poisoned?
  }

  ghost function StatesOf(opts: seq<OptState>): (r: set<OptState>) {
    set i | 0 <= i < |opts| :: opts[i]
  }

  ghost function StreamsOf(opts: seq<OptState>): (r: set<Stream>) {
    set i | 0 <= i < |opts| :: opts[i].cmds
  }

  lemma OneMore(opts: seq<OptState>, s: OptState)
    ensures StatesOf(opts + [s]) == StatesOf(opts) + {s} && StreamsOf(opts + [s]) == StreamsOf(opts) + {s.cmds}
  {
    var opts' := opts + [s];
    assert opts'[|opts|] == s;
    forall i | 0 <= i < |opts| ensures opts[i] in StatesOf(opts') && opts[i].cmds in StreamsOf(opts') {
      assert opts'[i] == opts[i];
    }
  }

  /** The context around the one at depth `k` */
  function Outer(st: seq<nat>, k: nat): (c: int)
    requires k <= |st|
  {
    if k == 0 then -1 else st[k - 1]
  }

  function Cur(st: seq<nat>): (c: int) {
    Outer(st, |st|)
  }

  /** The contexts as they are made: each with a poisoned stream of its own */
  ghost predicate Made(opts: seq<OptState>, base: Stream, scratch: Scratch)
    reads StatesOf(opts), StreamsOf(opts)
  {
    && (forall i {:trigger opts[i]} :: 0 <= i < |opts| ==>
          && opts[i] in StatesOf(opts) && opts[i].cmds in StreamsOf(opts) && opts[i].cmds != base
          && opts[i].wrapcnt == 0 && opts[i].scratch == scratch && opts[i].cmds.lastFence == Repeat(Poisoned))
    && (forall i, j {:trigger opts[i], opts[j]} ::
          0 <= i < j < |opts| ==> opts[i] != opts[j] && opts[i].cmds != opts[j].cmds)
  }

  /** The fields of `struct tegra_exa` that a context switch changes. Context -1 is the driver's own. */
  class Exa {
    const base: Stream
    const opts: seq<OptState>
    ghost const states: set<OptState>
    ghost const streams: set<Stream>
    var cmds: Stream
    var scratch: Scratch
    ghost var stack: seq<nat>  // the contexts that have been entered and not left, outermost first

    constructor (base: Stream, opts: seq<OptState>, scratch: Scratch)
      requires |opts| == CONTEXTS && base.lastFence == Repeat(NoFence) && Made(opts, base, scratch)
      ensures Valid() && stack == [] && cmds == base && this.base == base && this.opts == opts
      ensures this.scratch == scratch && Made(opts, base, scratch)
      ensures states == StatesOf(opts) && streams == {base} + StreamsOf(opts)
    {
      hide Made, StatesOf, StreamsOf, Valid;
      this.base, cmds, this.opts, stack, this.scratch := base, base, opts, [], scratch;
      states, streams := StatesOf(opts), {base} + StreamsOf(opts);
      new;
      MadeValid(this);
    }

    ghost function StreamOf(c: int): (s: Stream)
      requires c < |opts|
    {
      if c < 0 then base else opts[c].cmds
    }

    /** Distinct contexts have streams of their own. */
    ghost predicate Separate() {
      && |opts| == CONTEXTS && base in streams
      && (forall i {:trigger opts[i]} :: 0 <= i < CONTEXTS ==>
            opts[i] in states && opts[i].cmds in streams && opts[i].cmds != base)
      && (forall i, j {:trigger opts[i], opts[j]} :: 0 <= i < j < CONTEXTS ==>
            opts[i] != opts[j] && opts[i].cmds != opts[j].cmds)
    }

    /** Exactly the stream of context `cur` holds the live fences; the others are poisoned. */
    ghost predicate Fenced(cur: int)
      requires Separate()
      reads streams`lastFence
    {
      && -1 <= cur < CONTEXTS == |opts| && |StreamOf(cur).lastFence| == ENGINES && Clean(StreamOf(cur).lastFence)
      && forall c {:trigger StreamOf(c)} :: -1 <= c < CONTEXTS && c != cur ==>
           |StreamOf(c).lastFence| == ENGINES && AllPoisoned(StreamOf(c).lastFence)
    }

    /** Every context that has been entered knows the stream to go back to. */
    ghost predicate Nested(st: seq<nat>)
      requires Separate()
      reads states`cmdsTmp
    {
      && |opts| == CONTEXTS
      && (forall k {:trigger st[k]} :: 0 <= k < |st| ==> st[k] < CONTEXTS)
      && (forall k, l {:trigger st[k], st[l]} :: 0 <= k < l < |st| ==> st[k] != st[l])
      && (forall k {:trigger st[k]} :: 0 <= k < |st| ==> opts[st[k]].cmdsTmp == StreamOf(Outer(st, k)))
    }

    ghost predicate Entered()
      requires Separate()
      reads `stack, states`wrapcnt
    {
      forall i {:trigger opts[i]} :: 0 <= i < |opts| ==> (opts[i].wrapcnt > 0 <==> i in stack)
    }

    ghost predicate Valid()
      reads `cmds, `stack, states`cmdsTmp, states`wrapcnt, streams`lastFence
    {
      Separate() && Nested(stack) && Entered() && Fenced(Cur(stack)) && cmds == StreamOf(Cur(stack))
    }
  }

  lemma MadeValid(e: Exa)
    requires |e.opts| == CONTEXTS && e.base.lastFence == Repeat(NoFence) && Made(e.opts, e.base, e.scratch)
    requires e.states == StatesOf(e.opts) && e.streams == {e.base} + StreamsOf(e.opts)
    requires e.stack == [] && e.cmds == e.base
    ensures e.Valid()
  {
  }

  method MakeOpts(base: Stream, scratch: Scratch) returns (opts: seq<OptState>)
    ensures |opts| == CONTEXTS && fresh(StatesOf(opts)) && fresh(StreamsOf(opts)) && Made(opts, base, scratch)
  {
    opts := [];
    for k := 0 to CONTEXTS
      invariant |opts| == k && fresh(StatesOf(opts)) && fresh(StreamsOf(opts)) && Made(opts, base, scratch)
    {
      var cmds := new Stream(false);
      var state := new OptState(cmds, scratch);
      OneMore(opts, state);
      opts := opts + [state];
    }
  }

  /** `tegra_exa_init_optimizations` */
  method InitOptimizations(scratch: Scratch) returns (e: Exa)
    ensures e.Valid() && e.stack == [] && e.scratch == scratch && fresh(e) && fresh(e.states) && fresh(e.streams)
    ensures e.cmds.seqno == 0 && e.cmds.lastFence == Repeat(NoFence)
    ensures Made(e.opts, e.base, scratch)
  {
    hide Made, Exa.Valid, StatesOf, StreamsOf;
    var base := new Stream(true);
    var opts := MakeOpts(base, scratch);
    e := new Exa(base, opts, scratch);
  }

  /** `tegra_exa_transfer_stream_fences`, whose assertion never fails. */
  method Transfer(dst: Stream, src: Stream)
    requires dst != src && |dst.lastFence| == |src.lastFence| == ENGINES && AllPoisoned(dst.lastFence)
    modifies dst, src
    ensures dst.seqno == old(src.seqno) && dst.lastFence == old(src.lastFence)
    ensures |src.lastFence| == ENGINES && AllPoisoned(src.lastFence)
  {
    dst.seqno := src.seqno;
    for i := 0 to ENGINES
      invariant |dst.lastFence| == |src.lastFence| == ENGINES && dst.lastFence[..i] == old(src.lastFence)[..i]
      invariant AllPoisoned(dst.lastFence[i..]) && AllPoisoned(src.lastFence[..i])
      invariant src.lastFence[i..] == old(src.lastFence)[i..] && dst.seqno == old(src.seqno)
    {
      assert dst.lastFence[i..][0].Poisoned?;
      assert dst.lastFence[i] == Poisoned;
      dst.lastFence := dst.lastFence[i := src.lastFence[i]];
      src.lastFence := src.lastFence[i := Poisoned];
    }
  }

  // ---- What the contexts mean ---------------------------------------------------------------------

  /** The fences that travel from stream to stream, and the parameters that stay with each context */
  datatype World = World(seqno: nat, fences: seq<Fence>, scratch: map<int, Scratch>)

  /** A run: drawing in the current context, one run after another, and a run inside a context */
  datatype Prog =
    | Draw(seqno: nat, fences: seq<Fence>, scratch: Scratch)
    | Then(first: Prog, second: Prog)
    | Within(context: nat, body: Prog)

  ghost predicate Proper(p: Prog) {
    match p
    case Draw(_, f, _) => |f| == ENGINES && Clean(f)
    case Then(a, b) => Proper(a) && Proper(b)
    case Within(i, b) => i < CONTEXTS && Proper(b)
  }

  /** A context that has been entered already is not entered again: the run goes on where it is. */
  ghost function Meaning(p: Prog, cur: int, active: set<int>, w: World): (r: World) {
    match p
    case Draw(n, f, s) => World(n, f, w.scratch[cur := s])
    case Then(a, b) => Meaning(b, cur, active, Meaning(a, cur, active, w))
    case Within(i, b) => Meaning(b, if i in active then cur else i, active + {i}, w)
  }

  /** A run inside other contexts leaves the parameters of those that wait outside alone. */
  lemma {:induction false} OuterKept(p: Prog, cur: int, active: set<int>, w: World, c: int)
    requires c != cur && c in active && c in w.scratch
    ensures c in Meaning(p, cur, active, w).scratch && Meaning(p, cur, active, w).scratch[c] == w.scratch[c]
  {
    match p
    case Draw(n, f, s) =>
    case Then(a, b) =>
      OuterKept(a, cur, active, w, c);
      OuterKept(b, cur, active, Meaning(a, cur, active, w), c);
    case Within(i, b) =>
      OuterKept(b, if i in active then cur else i, active + {i}, w, c);
  }

  /** In particular an outermost excursion into another context gives the caller's parameters back
      exactly as they were. */
  lemma ExcursionRestores(b: Prog, i: nat, cur: int, active: set<int>, w: World)
    requires i !in active && cur in active && cur in w.scratch
    ensures cur in Meaning(Within(i, b), cur, active, w).scratch
    ensures Meaning(Within(i, b), cur, active, w).scratch[cur] == w.scratch[cur]
  {
    OuterKept(b, i, active + {i}, w, cur);
  }

  /** The driver is in the state that `w` describes. */
  ghost predicate Shows(e: Exa, w: World)
    reads e`cmds, e`stack, e`scratch, e.states, e.streams
  {
    e.Valid() && Fences(e, Cur(e.stack), w) && Params(e, e.stack, e.scratch, w)
  }

  ghost predicate Fences(e: Exa, cur: int, w: World)
    requires e.Separate()
    reads e.streams
  {
    -1 <= cur < CONTEXTS == |e.opts| && w.seqno == e.StreamOf(cur).seqno && w.fences == e.StreamOf(cur).lastFence
  }

  ghost predicate Params(e: Exa, st: seq<nat>, scratch: Scratch, w: World)
    requires e.Separate()
    reads e.states`scratch, e.states`scratchTmp
  {
    && HasAll(w.scratch) && -1 <= Cur(st) < CONTEXTS && w.scratch[Cur(st)] == scratch
    && (forall k {:trigger Waits(e, st, w.scratch, k)} :: 0 <= k < |st| ==> Waits(e, st, w.scratch, k))
    && (forall i {:trigger Stores(e, w.scratch, i)} :: 0 <= i < CONTEXTS && i !in st ==> Stores(e, w.scratch, i))
  }

  /** The parameters of the context around depth `k` wait in the one that was entered from it. */
  ghost predicate Waits(e: Exa, st: seq<nat>, m: map<int, Scratch>, k: nat)
    requires e.Separate() && HasAll(m) && k < |st|
    reads e.states`scratchTmp
  {
    st[k] < CONTEXTS && -1 <= Outer(st, k) < CONTEXTS && m[Outer(st, k)] == e.opts[st[k]].scratchTmp
  }

  /** A context that has not been entered keeps its own. */
  ghost predicate Stores(e: Exa, m: map<int, Scratch>, i: nat)
    requires e.Separate() && HasAll(m) && i < CONTEXTS
    reads e.states`scratch
  {
    m[i] == e.opts[i].scratch
  }

  ghost predicate HasAll(m: map<int, Scratch>) {
    forall c {:trigger c in m} :: -1 <= c < CONTEXTS ==> c in m
  }

  /** Outside all contexts the state of the driver is its own description. */
  lemma DescribesItself(e: Exa)
    requires e.Valid() && e.stack == []
    ensures Shows(e, World(e.cmds.seqno, e.cmds.lastFence,
                           map c: int | -1 <= c < CONTEXTS :: if c < 0 then e.scratch else e.opts[c].scratch))
  {
  }

  /** How deep each context is entered */
  ghost function Depths(e: Exa): (r: map<nat, nat>)
    requires e.Separate()
    reads e.states`wrapcnt
  {
    map i: nat | i < |e.opts| :: e.opts[i].wrapcnt
  }

  lemma Member(e: Exa, c: int)
    requires e.Separate() && -1 <= c < CONTEXTS
    ensures e.StreamOf(c) in e.streams && (c >= 0 ==> e.opts[c] in e.states && e.StreamOf(c) == e.opts[c].cmds)
  {
  }

  lemma StreamsDiffer(e: Exa, c: int, d: int)
    requires e.Separate() && -1 <= c < CONTEXTS && -1 <= d < CONTEXTS && c != d
    ensures e.StreamOf(c) != e.StreamOf(d)
  {
    assert c >= 0 ==> e.opts[c].cmds != e.base;
    assert d >= 0 ==> e.opts[d].cmds != e.base;
  }

  lemma NotCurrent(st: seq<nat>, i: nat)
    requires i !in st
    ensures Cur(st) != i
  {
    if st != [] { assert st[|st| - 1] in st; }
  }

  /** The live fences move from one context to another. */
  method SwitchFences(e: Exa, dst: Stream, src: Stream, ghost from: int, ghost to: int, ghost w: World)
    requires e.Separate() && e.Fenced(from) && Fences(e, from, w) && -1 <= to < CONTEXTS && to != from
    requires src == e.StreamOf(from) && dst == e.StreamOf(to)
    modifies dst, src
    ensures e.Fenced(to) && Fences(e, to, w)
  {
    StreamsDiffer(e, from, to);
    Transfer(dst, src);
    forall c | -1 <= c < CONTEXTS && c != to
      ensures |e.StreamOf(c).lastFence| == ENGINES && AllPoisoned(e.StreamOf(c).lastFence)
    {
      if c != from {
        StreamsDiffer(e, c, from);
        StreamsDiffer(e, c, to);
      }
    }
  }

  lemma OthersDiffer(e: Exa, i: nat, st: seq<nat>)
    requires e.Separate() && i < CONTEXTS && i !in st
    ensures forall k {:trigger st[k]} :: 0 <= k < |st| && st[k] < CONTEXTS ==> e.opts[st[k]] != e.opts[i]
  {
    forall k | 0 <= k < |st| && st[k] < CONTEXTS ensures e.opts[st[k]] != e.opts[i] {
      assert st[k] in st;
    }
  }

  method SaveStream(e: Exa, state: OptState, ghost i: nat, ghost st: seq<nat>)
    requires e.Separate() && e.Nested(st) && i < CONTEXTS && i !in st && state == e.opts[i]
    requires e.cmds == e.StreamOf(Cur(st))
    modifies state`cmdsTmp
    ensures e.Nested(st + [i])
  {
    hide Exa.Separate;
    OthersDiffer(e, i, st);
    state.cmdsTmp := e.cmds;
    forall k | 0 <= k < |st + [i]| ensures e.opts[(st + [i])[k]].cmdsTmp == e.StreamOf(Outer(st + [i], k)) {
      if k < |st| { assert e.opts[st[k]].cmdsTmp == e.StreamOf(Outer(st, k)); }
    }
  }

  method SaveScratch(e: Exa, state: OptState, ghost i: nat, ghost st: seq<nat>, ghost w: World)
    requires e.Separate() && i < CONTEXTS && i !in st && state == e.opts[i] && Params(e, st, e.scratch, w)
    modifies state`scratchTmp, e`scratch
    ensures Params(e, st + [i], e.scratch, w)
  {
    hide Exa.Separate;
    OthersDiffer(e, i, st);
    assert Stores(e, w.scratch, i);
    state.scratchTmp := e.scratch;
    e.scratch := state.scratch;
    ghost var st' := st + [i];
    forall k | 0 <= k < |st'| ensures Waits(e, st', w.scratch, k) {
      if k < |st| { assert old(Waits(e, st, w.scratch, k)) && Outer(st', k) == Outer(st, k); }
    }
    forall n | 0 <= n < CONTEXTS && n !in st' ensures Stores(e, w.scratch, n) {
      assert old(Stores(e, w.scratch, n));
    }
  }

  /** The first entry into a context */
  method Enter(e: Exa, state: OptState, ghost i: nat, ghost w: World)
    requires e.Separate() && e.Nested(e.stack) && e.Fenced(Cur(e.stack)) && e.cmds == e.StreamOf(Cur(e.stack))
    requires Fences(e, Cur(e.stack), w) && Params(e, e.stack, e.scratch, w)
    requires i < CONTEXTS && i !in e.stack && state == e.opts[i]
    modifies e`cmds, e`scratch, e`stack, state`cmdsTmp, state`scratchTmp, e.streams
    ensures e.stack == old(e.stack) + [i] && e.Nested(e.stack) && e.Fenced(i) && e.cmds == e.StreamOf(i)
    ensures Fences(e, i, w) && Params(e, e.stack, e.scratch, w)
  {
    hide Params, Fences, Exa.Nested, Exa.Separate;
    ghost var st := e.stack;
    NotCurrent(st, i);
    CurOk(e, st);
    Member(e, i);
    Member(e, Cur(st));
    SaveStream(e, state, i, st);
    SwitchFences(e, state.cmds, e.cmds, Cur(st), i, w);
    e.cmds := state.cmds;
    SaveScratch(e, state, i, st, w);
    e.stack := st + [i];
  }

  lemma CurOk(e: Exa, st: seq<nat>)
    requires e.Separate() && e.Nested(st)
    ensures -1 <= Cur(st) < CONTEXTS == |e.opts|
  {
  }

  /** `tegra_exa_wrap_state` */
  method Wrap(e: Exa, i: nat, ghost w: World)
    requires Shows(e, w) && i < CONTEXTS
    modifies e`cmds, e`scratch, e`stack, e.states, e.streams
    ensures Shows(e, w) && e.stack == if i in old(e.stack) then old(e.stack) else old(e.stack) + [i]
    ensures Depths(e) == old(Depths(e))[i := old(e.opts[i].wrapcnt) + 1]
  {
    hide Params, Fences, Exa.Nested, Exa.Fenced;
    var state := e.opts[i];
    Member(e, i);
    state.wrapcnt := state.wrapcnt + 1;
    if state.wrapcnt != 1 {
      return;
    }
    Enter(e, state, i, w);
  }

  method RestoreScratch(e: Exa, state: OptState, ghost i: nat, ghost st: seq<nat>, ghost w: World)
    requires e.Separate() && i < CONTEXTS && i !in st && state == e.opts[i] && Params(e, st + [i], e.scratch, w)
    modifies state`scratch, e`scratch
    ensures Params(e, st, e.scratch, w)
  {
    hide Exa.Separate;
    ghost var st' := st + [i];
    assert Waits(e, st', w.scratch, |st|) && Outer(st', |st|) == Cur(st);
    state.scratch := e.scratch;
    e.scratch := state.scratchTmp;
    forall k | 0 <= k < |st| ensures Waits(e, st, w.scratch, k) {
      assert old(Waits(e, st', w.scratch, k)) && Outer(st', k) == Outer(st, k);
    }
    forall n | 0 <= n < CONTEXTS && n !in st ensures Stores(e, w.scratch, n) {
      if n != i {
        OptsDiffer(e, n, i);
        assert old(Stores(e, w.scratch, n));
      }
    }
  }

  lemma OptsDiffer(e: Exa, n: nat, i: nat)
    requires e.Separate() && n < CONTEXTS && i < CONTEXTS && n != i
    ensures e.opts[n] != e.opts[i]
  {
  }

  lemma NestedOpen(e: Exa, i: nat, st: seq<nat>)
    requires e.Separate() && e.Nested(st + [i])
    ensures e.Nested(st) && i < CONTEXTS && i !in st && e.opts[i].cmdsTmp == e.StreamOf(Cur(st))
  {
    var st' := st + [i];
    assert st'[|st|] == i && Outer(st', |st|) == Cur(st);
    forall k | 0 <= k < |st|
      ensures st[k] < CONTEXTS && st[k] != i && e.opts[st[k]].cmdsTmp == e.StreamOf(Outer(st, k))
    {
      assert st'[k] == st[k] && Outer(st', k) == Outer(st, k);
    }
    forall k, l | 0 <= k < l < |st| ensures st[k] != st[l] {
      assert st'[k] == st[k] && st'[l] == st[l];
    }
  }

  /** The last exit from a context */
  method Leave(e: Exa, state: OptState, ghost i: nat, ghost st: seq<nat>, ghost w: World)
    requires e.Separate() && e.stack == st + [i] && e.Nested(e.stack) && e.Fenced(i) && e.cmds == e.StreamOf(i)
    requires Fences(e, i, w) && Params(e, e.stack, e.scratch, w) && i < CONTEXTS && state == e.opts[i]
    modifies e`cmds, e`scratch, e`stack, state`scratch, e.streams
    ensures e.stack == st && e.Nested(st) && e.Fenced(Cur(st)) && e.cmds == e.StreamOf(Cur(st))
    ensures Fences(e, Cur(st), w) && Params(e, st, e.scratch, w) && i !in st
  {
    hide Params, Fences, Exa.Nested, Exa.Separate, Exa.Fenced;
    NestedOpen(e, i, st);
    NotCurrent(st, i);
    CurOk(e, st);
    Member(e, i);
    Member(e, Cur(st));
    RestoreScratch(e, state, i, st, w);
    e.cmds := state.cmdsTmp;
    SwitchFences(e, e.cmds, state.cmds, i, Cur(st), w);
    e.stack := st;
  }

  /** `tegra_exa_unwrap_state` */
  method Unwrap(e: Exa, i: nat, ghost w: World)
    requires Shows(e, w) && i < CONTEXTS && e.opts[i].wrapcnt > 0 && (e.opts[i].wrapcnt == 1 ==> Cur(e.stack) == i)
    modifies e`cmds, e`scratch, e`stack, e.states, e.streams
    ensures Shows(e, w)
    ensures e.stack == if old(e.opts[i].wrapcnt) > 1 then old(e.stack) else old(e.stack)[..|old(e.stack)| - 1]
    ensures Depths(e) == old(Depths(e))[i := old(e.opts[i].wrapcnt) - 1]
  {
    hide Params, Fences, Exa.Nested, Exa.Fenced;
    var state := e.opts[i];
    Member(e, i);
    state.wrapcnt := state.wrapcnt - 1;
    if state.wrapcnt != 0 {
      return;
    }
    ghost var st := e.stack[..|e.stack| - 1];
    assert e.stack == st + [i];
    Leave(e, state, i, st, w);
  }

  /** The contexts that have been entered, and the driver's own */
  ghost function Active(st: seq<nat>): (r: set<int>) {
    {-1} + set i: int | 0 <= i < CONTEXTS && i in st
  }

  method WorkStream(e: Exa, cmds: Stream, n: nat, f: seq<Fence>, ghost cur: int)
    requires e.Separate() && e.Fenced(cur) && cmds == e.StreamOf(cur) && |f| == ENGINES && Clean(f)
    modifies cmds`seqno, cmds`lastFence
    ensures e.Fenced(cur) && cmds.seqno == n && cmds.lastFence == f
  {
    cmds.seqno, cmds.lastFence := n, f;
    forall c | -1 <= c < CONTEXTS && c != cur
      ensures |e.StreamOf(c).lastFence| == ENGINES && AllPoisoned(e.StreamOf(c).lastFence)
    {
      StreamsDiffer(e, c, cur);
    }
  }

  /** Drawing in the current context */
  method Work(e: Exa, n: nat, f: seq<Fence>, s: Scratch, ghost w: World)
    requires Shows(e, w) && |f| == ENGINES && Clean(f)
    modifies e`scratch, e.streams
    ensures Shows(e, Meaning(Draw(n, f, s), Cur(e.stack), Active(e.stack), w)) && e.stack == old(e.stack)
  {
    hide Exa.Nested, Exa.Fenced, Exa.Separate, Params;
    CurOk(e, e.stack);
    Member(e, Cur(e.stack));
    WorkStream(e, e.cmds, n, f, Cur(e.stack));
    WorkParams(e, e.stack, e.scratch, w, s);
    e.scratch := s;
    ghost var w' := World(n, f, w.scratch[Cur(e.stack) := s]);
    assert Params(e, e.stack, s, w.(scratch := w.scratch[Cur(e.stack) := s]));
    SameParams(e, e.stack, s, w.(scratch := w.scratch[Cur(e.stack) := s]), w');
  }

  /** The fences have nothing to do with the parameters. */
  lemma SameParams(e: Exa, st: seq<nat>, s: Scratch, w: World, w': World)
    requires e.Separate() && Params(e, st, s, w) && w'.scratch == w.scratch
    ensures Params(e, st, s, w')
  {
  }

  lemma WorkParams(e: Exa, st: seq<nat>, scratch: Scratch, w: World, s: Scratch)
    requires e.Separate() && e.Nested(st) && Params(e, st, scratch, w)
    ensures Cur(st) in w.scratch && Params(e, st, s, w.(scratch := w.scratch[Cur(st) := s]))
  {
    var w' := w.(scratch := w.scratch[Cur(st) := s]);
    forall k | 0 <= k < |st| ensures Waits(e, st, w'.scratch, k) {
      assert Waits(e, st, w.scratch, k);
      if k > 0 { assert st[k - 1] != st[|st| - 1]; }
    }
    forall n | 0 <= n < CONTEXTS && n !in st ensures Stores(e, w'.scratch, n) {
      assert Stores(e, w.scratch, n);
      if st != [] { assert st[|st| - 1] in st; }
    }
  }

  lemma DepthAt(e: Exa, i: nat)
    requires e.Separate() && i < CONTEXTS
    ensures i in Depths(e) && Depths(e)[i] == e.opts[i].wrapcnt
  {
  }

  /** Any properly nested run: what it does is what it means, and every context is left as deep as it was
      entered, so that afterwards the caller's stream is current again. */
  method Exec(e: Exa, p: Prog, ghost w: World)
    requires Shows(e, w) && Proper(p)
    modifies e`cmds, e`scratch, e`stack, e.states, e.streams
    ensures Shows(e, Meaning(p, Cur(e.stack), Active(e.stack), w))
    ensures e.stack == old(e.stack) && e.cmds == old(e.cmds) && Depths(e) == old(Depths(e))
    decreases p
  {
    hide Params, Fences, Exa.Nested, Exa.Fenced, Exa.Separate;
    match p
    case Draw(n, f, s) =>
      Work(e, n, f, s, w);
    case Then(a, b) =>
      Exec(e, a, w);
      Exec(e, b, Meaning(a, Cur(e.stack), Active(e.stack), w));
    case Within(i, b) =>
      ghost var st, d := e.stack, Depths(e);
      DepthAt(e, i);
      Wrap(e, i, w);
      ActivePush(st, i);
      ghost var w' := Meaning(b, Cur(e.stack), Active(e.stack), w);
      Exec(e, b, w);
      DepthAt(e, i);
      Unwrap(e, i, w');
  }

  lemma ActivePush(st: seq<nat>, i: nat)
    requires i < CONTEXTS
    ensures Active(st + [i]) == Active(st) + {i} && Cur(st + [i]) == i
    ensures i in st ==> Active(st) + {i} == Active(st)
    ensures i in st <==> i in Active(st)
  {
  }

  /** The contexts, and the driver's own */
  function Contexts(): (r: set<int>)
    ensures forall c {:trigger c in r} :: c in r <==> -1 <= c < CONTEXTS
  {
    {-1, 0, 1, 2}
  }

  /** The driver as it starts: nothing submitted, and the same parameters in every context */
  function AtStart(scratch: Scratch): (w: World) {
    World(0, Repeat(NoFence), map c | c in Contexts() :: scratch)
  }

  /** Any properly nested run of a driver that has just been initialised does what it means, and leaves
      the driver outside all contexts. */
  method RunFromStart(scratch: Scratch, p: Prog) returns (e: Exa)
    requires Proper(p)
    ensures fresh(e) && Shows(e, Meaning(p, -1, {-1}, AtStart(scratch))) && e.stack == []
    ensures forall i {:trigger e.opts[i]} :: 0 <= i < |e.opts| ==> e.opts[i].wrapcnt == 0
  {
    hide Params, Fences, Meaning, Exa.Nested, Exa.Fenced;
    e := InitOptimizations(scratch);
    DescribesItself(e);
    ghost var w := AtStart(scratch);
    assert w.scratch == map c: int | -1 <= c < CONTEXTS :: if c < 0 then e.scratch else e.opts[c].scratch;
    assert Active([]) == {-1};
    ghost var d := Depths(e);
    Exec(e, p, w);
    forall i | 0 <= i < |e.opts| ensures e.opts[i].wrapcnt == 0 {
      assert Depths(e)[i] == d[i];
    }
  }
}
