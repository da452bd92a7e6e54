/** Whole runs over the recycle cache: who holds which buffer. */
module BoSession {
  import opened Lists
  import opened BoCache

  /** Requests of the users of a device. Buffers are looked up by their slot in the handle table, and
      references are given back by their slot in the list of all references. `idle` says whether the buffer
      that could be recycled is, and `granted` whether the kernel makes a new one. */
  datatype Op =
    | New(size: nat, sparse: bool, idle: bool, granted: bool)
    | Find(handle: nat)
    | Ref(user: nat)
    | Unref(user: nat, now: int)

  /** A buffer has as many references as users hold, and one more for every time that a lookup found it
      parked. `table` lists the buffers that have been made. */
  ghost predicate Counted(d: Drm, table: seq<Bo>, users: seq<Bo>, extra: seq<Bo>)
    reads d`known, d.known
  {
    && (forall bo {:trigger bo in users} :: bo in users ==> bo in d.known)
    && (forall bo {:trigger bo in table} :: bo in table ==> bo in d.known)
    && forall bo {:trigger bo in d.known} :: bo in d.known ==> bo.ref == multiset(users)[bo] + multiset(extra)[bo]
  }

  /** A buffer that somebody holds is neither parked nor freed. */
  lemma HeldIsSafe(d: Drm, table: seq<Bo>, users: seq<Bo>, extra: seq<Bo>, bo: Bo)
    requires d.Valid() && Counted(d, table, users, extra) && bo in users
    ensures bo in d.known && bo.ref > 0 && !bo.freed && !Parked(d, bo)
  {
    hide Drm.CacheOk;
    assert bo in d.known && bo in multiset(users);
    InUse(d, bo);
  }

  /** A buffer that nobody holds, and that no lookup found parked, is parked or freed. */
  lemma UnheldIsGone(d: Drm, table: seq<Bo>, users: seq<Bo>, extra: seq<Bo>, bo: Bo)
    requires d.Valid() && Counted(d, table, users, extra) && bo in d.known && bo !in users && bo !in extra
    ensures bo.ref == 0 && bo.freed == !Parked(d, bo)
  {
    hide Drm.CacheOk;
    assert bo !in multiset(users) && bo !in multiset(extra);
    if Parked(d, bo) { ParkedIsIdle(d, bo); }
  }

  /** What a request does to the references. While the kernel makes buffers, every request for one is met. */
  ghost predicate Step(op: Op, a: seq<Bo>, b: seq<Bo>) {
    match op
    case New(size, _, _, granted) =>
      if size == 0 || size >= 0x1_0000_0000 then b == a
      else (|b| == |a| + 1 && b[..|a|] == a && b[|a|] !in a) || (b == a && !granted)
    case Find(_) => b == a || (|b| == |a| + 1 && b[..|a|] == a)
    case Ref(i) => b == if i < |a| then a + [a[i]] else a
    case Unref(i, _) => b == if i < |a| then Drop(a, i) else a
  }

  ghost predicate Trace(ops: seq<Op>, states: seq<seq<Bo>>) {
    |states| == |ops| + 1 && forall i {:trigger ops[i]} :: 0 <= i < |ops| ==> Step(ops[i], states[i], states[i + 1])
  }

  /** As long as nobody asks to share, no two users ever have the same buffer. */
  lemma {:induction false} NeverShared(ops: seq<Op>, states: seq<seq<Bo>>)
    requires Trace(ops, states) && Distinct(states[0])
    requires forall op {:trigger op in ops} :: op in ops ==> op.New? || op.Unref?
    ensures Distinct(states[|ops|])
  {
    if ops != [] {
      var a, b := states[0], states[1];
      assert ops[0] in ops && Step(ops[0], a, b);
      if ops[0].Unref? && ops[0].user < |a| {
        DropsOne(a, ops[0].user);
      } else if b != a {
        AddsOne(a, b[|a|]);
        assert b == a + [b[|a|]];
      }
      forall i | 0 <= i < |ops[1..]| ensures Step(ops[1..][i], states[1..][i], states[1..][i + 1]) {
        assert Step(ops[i + 1], states[i + 1], states[i + 2]);
      }
      assert forall op {:trigger op in ops[1..]} :: op in ops[1..] ==> op in ops;
      NeverShared(ops[1..], states[1..]);
    }
  }

  /** A new reference is one more reference. */
  lemma OneMoreUser(users: seq<Bo>, bo: Bo)
    ensures multiset(users + [bo]) == multiset(users)[bo := multiset(users)[bo] + 1]
  {
  }

  lemma OneUserLess(users: seq<Bo>, i: nat)
    requires i < |users|
    ensures users[i] in users && multiset(users)[users[i]] > 0
    ensures multiset(Drop(users, i)) == multiset(users)[users[i] := multiset(users)[users[i]] - 1]
    ensures forall bo {:trigger bo in Drop(users, i)} :: bo in Drop(users, i) ==> bo in users
  {
    DropsOne(users, i);
    assert users[i] in multiset(users);
  }

  method Make(d: Drm, size: nat, sparse: bool, idle: bool, granted: bool, table: seq<Bo>, users: seq<Bo>,
              ghost extra: seq<Bo>)
    returns (table': seq<Bo>, users': seq<Bo>)
    requires d.Valid() && Counted(d, table, users, extra) && size < TWO32
    requires forall bo {:trigger bo in extra} :: bo in extra ==> bo in d.known
    modifies d`known, d.buckets, d.known`ref
    ensures d.Valid() && Counted(d, table', users', extra) && d.known >= old(d.known) && fresh(d.known - old(d.known))
    ensures Step(New(size, sparse, idle, granted), users, users')
  {
    hide Drm.CacheOk, Drm.SortedBut, Drawn, Rounded;
    var bo := BoNew(d, size, sparse, idle, granted);
    if bo == null {
      return table, users;
    }
    table', users' := table + [bo], users + [bo];
    OneMoreUser(users, bo);
    assert bo !in multiset(users) && bo !in multiset(extra) by {
      if fresh(bo) {
        assert bo !in users && bo !in extra;
      } else {
        assert old(bo.ref) == 0;
      }
    }
  }

  method Look(d: Drm, bo: Bo, table: seq<Bo>, users: seq<Bo>, ghost extra: seq<Bo>)
    returns (users': seq<Bo>, ghost extra': seq<Bo>)
    requires d.Valid() && Counted(d, table, users, extra) && bo in d.known && !bo.freed
    modifies d.buckets, bo`ref
    ensures d.Valid() && Counted(d, table, users', extra') && users' == users + [bo]
    ensures extra' == extra + if old(Parked(d, bo)) then [bo] else []
  {
    hide Drm.CacheOk, Drm.SortedBut, Parked;
    ghost var parked := Parked(d, bo);
    ParkedCount(d, table, users, extra, bo);
    Lookup(d, bo);
    users', extra' := users + [bo], extra + if parked then [bo] else [];
    OneMoreUser(users, bo);
    OneMoreUser(extra, bo);
    assert extra + [] == extra;
  }

  lemma ParkedCount(d: Drm, table: seq<Bo>, users: seq<Bo>, extra: seq<Bo>, bo: Bo)
    requires d.Valid() && Counted(d, table, users, extra) && bo in d.known
    ensures Parked(d, bo) ==> bo.ref == 0
  {
    hide Drm.CacheOk;
    if Parked(d, bo) { ParkedIsIdle(d, bo); }
  }

  method Share(d: Drm, bo: Bo, ghost i: nat, table: seq<Bo>, users: seq<Bo>, ghost extra: seq<Bo>)
    returns (users': seq<Bo>)
    requires d.Valid() && Counted(d, table, users, extra) && i < |users| && users[i] == bo
    modifies bo`ref
    ensures d.Valid() && Counted(d, table, users', extra) && users' == users + [bo]
  {
    hide Drm.CacheOk, Drm.SortedBut;
    HeldIsSafe(d, table, users, extra, bo);
    AddRef(d, bo);
    OneMoreUser(users, bo);
    users' := users + [bo];
  }

  method Give(d: Drm, bo: Bo, i: nat, now: int, table: seq<Bo>, users: seq<Bo>, ghost extra: seq<Bo>)
    returns (users': seq<Bo>)
    requires d.Valid() && Counted(d, table, users, extra) && i < |users| && users[i] == bo
    modifies d`time, d.buckets, d.known`freed, bo`ref, bo`freeTime
    ensures d.Valid() && Counted(d, table, users', extra) && users' == Drop(users, i)
  {
    hide Drm.CacheOk, Drm.SortedBut, Shelved;
    OneUserLess(users, i);
    HeldIsSafe(d, table, users, extra, bo);
    var _ := BoCache.Unref(d, bo, now);
    users' := Drop(users, i);
  }

  /** One request; those that make no sense are not made. */
  method Request(d: Drm, op: Op, table: seq<Bo>, users: seq<Bo>, ghost extra: seq<Bo>)
    returns (table': seq<Bo>, users': seq<Bo>, ghost extra': seq<Bo>)
    requires d.Valid() && Counted(d, table, users, extra)
    requires forall bo {:trigger bo in extra} :: bo in extra ==> bo in d.known
    modifies d`known, d`time, d.buckets, d.known
    ensures d.Valid() && Counted(d, table', users', extra') && d.known >= old(d.known) && fresh(d.known - old(d.known))
    ensures forall bo {:trigger bo in extra'} :: bo in extra' ==> bo in d.known
    ensures Step(op, users, users') && (op.Find? || extra' == extra)
    ensures op.Find? && op.handle < |table| && !old(table[op.handle].freed) ==> users' == users + [table[op.handle]]
  {
    hide Drm.CacheOk, Drm.SortedBut, Parked, Counted;
    table', users', extra' := table, users, extra;
    match op
    case New(size, sparse, idle, granted) =>
      if size < TWO32 {
        table', users' := Make(d, size, sparse, idle, granted, table, users, extra);
      }
    case Find(handle) =>
      if handle < |table| && !table[handle].freed {
        KnownHandle(d, table, users, extra, handle);
        users', extra' := Look(d, table[handle], table, users, extra);
      }
    case Ref(i) =>
      if i < |users| {
        KnownUser(d, table, users, extra, i);
        users' := Share(d, users[i], i, table, users, extra);
      }
    case Unref(i, now) =>
      if i < |users| {
        KnownUser(d, table, users, extra, i);
        users' := Give(d, users[i], i, now, table, users, extra);
      }
  }

  lemma KnownHandle(d: Drm, table: seq<Bo>, users: seq<Bo>, extra: seq<Bo>, i: nat)
    requires Counted(d, table, users, extra) && i < |table|
    ensures table[i] in d.known
  {
    assert table[i] in table;
  }

  lemma KnownUser(d: Drm, table: seq<Bo>, users: seq<Bo>, extra: seq<Bo>, i: nat)
    requires Counted(d, table, users, extra) && i < |users|
    ensures users[i] in d.known
  {
    assert users[i] in users;
  }

  /** Any sequence of requests on a device that was just opened: every reference is counted, and the
      cache never parks, frees or hands out again what somebody holds. */
  method Run(grate: bool, ops: seq<Op>)
    returns (d: Drm, users: seq<Bo>, ghost extra: seq<Bo>, ghost states: seq<seq<Bo>>)
    ensures d.Valid() && Trace(ops, states) && states[0] == [] && states[|ops|] == users
    ensures forall bo {:trigger bo in d.known} :: bo in d.known ==> bo.ref == multiset(users)[bo] + multiset(extra)[bo]
    ensures forall bo {:trigger bo in users} ::
              bo in users ==> bo in d.known && bo.ref > 0 && !bo.freed && !Parked(d, bo)
    ensures (forall op {:trigger op in ops} :: op in ops ==> !op.Find?) ==> extra == []
  {
    hide Drm.CacheOk, Drm.SortedBut, Parked, Step;
    d := OpenDrm(grate);
    var table: seq<Bo> := [];
    users, extra, states := [], [], [[]];
    for i := 0 to |ops|
      invariant d.Valid() && Counted(d, table, users, extra) && fresh(d) && fresh(d.known) && fresh(d.buckets)
      invariant forall bo {:trigger bo in extra} :: bo in extra ==> bo in d.known
      invariant Trace(ops[..i], states) && states[0] == [] && states[i] == users
      invariant (forall op {:trigger op in ops} :: op in ops ==> !op.Find?) ==> extra == []
    {
      assert ops[i] in ops;
      table, users, extra := Request(d, ops[i], table, users, extra);
      states := states + [users];
    }
    assert ops[..|ops|] == ops;
    forall bo | bo in users ensures bo in d.known && bo.ref > 0 && !bo.freed && !Parked(d, bo) {
      HeldIsSafe(d, table, users, extra, bo);
    }
  }
}
