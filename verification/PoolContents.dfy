/** Who owns which entry of a pool and what bytes it holds: the value of the owner back-pointers and
    of the pool's memory, and how placing, clearing and moving one entry changes them. */
module PoolContents {
  import opened Bitmap
  import opened PoolLayout
  import opened VfpCopy

  /** Every handle resolves to the used entry that points back at it, and every used entry is some
      handle's. */
  ghost predicate Owned<O>(t: Table<O>, slot: map<O, nat>) {
    && |t.used| == |t.entries|
    && (forall o {:trigger slot[o]} :: o in slot ==> t.Used(slot[o]) && t.entries[slot[o]].owner == o)
    && (forall i {:trigger t.used[i]} :: 0 <= i < |t.used| && t.used[i] ==>
          t.entries[i].owner in slot && slot[t.entries[i].owner] == i)
  }

  lemma OwnerOf<O>(t: Table<O>, slot: map<O, nat>, i: nat)
    requires Owned(t, slot) && t.Used(i)
    ensures |t.used| == |t.entries| && t.entries[i].owner in slot && slot[t.entries[i].owner] == i
  {
    assert t.used[i];
  }

  lemma OwnedBy<O>(t: Table<O>, slot: map<O, nat>, o: O)
    requires Owned(t, slot) && o in slot
    ensures |t.used| == |t.entries| && t.Used(slot[o]) && t.entries[slot[o]].owner == o
  {
  }

  ghost predicate InMemory<O>(e: Entry<O>, m: seq<byte>) {
    0 <= e.base <= e.End() <= |m|
  }

  /** The memory holds the bytes of every live handle. */
  ghost predicate Holds<O>(t: Table<O>, slot: map<O, nat>, live: map<O, seq<byte>>, m: seq<byte>) {
    && live.Keys == slot.Keys
    && forall o {:trigger live[o]} :: o in live ==>
         && slot[o] < |t.entries| && InMemory(t.entries[slot[o]], m)
         && live[o] == m[t.entries[slot[o]].base..t.entries[slot[o]].End()]
  }

  ghost function Moved<O>(t: Table<O>, from: nat, to: nat, base: int): (r: Table<O>)
    requires from < |t.used| == |t.entries| && to < |t.used|
  {
    Place(Clear(t, from), to, t.entries[from].(base := base))
  }

  lemma OwnedPlace<O>(t: Table<O>, slot: map<O, nat>, i: nat, e: Entry<O>)
    requires Owned(t, slot) && i < |t.used| && !t.used[i] && e.owner !in slot
    ensures Owned(Place(t, i, e), slot[e.owner := i])
  {
    var t', slot' := Place(t, i, e), slot[e.owner := i];
    forall o | o in slot' ensures t'.Used(slot'[o]) && t'.entries[slot'[o]].owner == o {
      if o != e.owner { assert t.Used(slot[o]); }
    }
  }

  lemma OwnedClear<O>(t: Table<O>, slot: map<O, nat>, o: O)
    requires Owned(t, slot) && o in slot
    ensures slot[o] < |t.used| && Owned(Clear(t, slot[o]), slot - {o})
  {
    assert t.Used(slot[o]);
    var t', slot' := Clear(t, slot[o]), slot - {o};
    forall o' | o' in slot' ensures t'.Used(slot'[o']) && t'.entries[slot'[o']].owner == o' {
      assert t.Used(slot[o']) && slot[o'] != slot[o];
    }
  }

  lemma OwnedMove<O>(t: Table<O>, slot: map<O, nat>, from: nat, to: nat, base: int)
    requires Owned(t, slot) && t.Used(from) && to < |t.used| && (to == from || !t.used[to])
    ensures Owned(Moved(t, from, to, base), slot[t.entries[from].owner := to])
  {
    var o, e := t.entries[from].owner, t.entries[from].(base := base);
    OwnedClear(t, slot, o);
    OwnedPlace(Clear(t, from), slot - {o}, to, e);
    PutBack(slot, o, to);
  }

  lemma HoldsPlace<O>(t: Table<O>, slot: map<O, nat>, live: map<O, seq<byte>>, m: seq<byte>, i: nat, e: Entry<O>)
    requires Owned(t, slot) && Holds(t, slot, live, m) && i < |t.used| && !t.used[i]
    requires e.owner !in slot && InMemory(e, m)
    ensures Holds(Place(t, i, e), slot[e.owner := i], live[e.owner := m[e.base..e.End()]], m)
  {
    var t', slot', live' := Place(t, i, e), slot[e.owner := i], live[e.owner := m[e.base..e.End()]];
    forall o | o in live'
      ensures slot'[o] < |t'.entries| && InMemory(t'.entries[slot'[o]], m)
      ensures live'[o] == m[t'.entries[slot'[o]].base..t'.entries[slot'[o]].End()]
    {
      if o != e.owner { assert live'[o] == live[o] && t.Used(slot[o]); }
    }
  }

  lemma HoldsClear<O>(t: Table<O>, slot: map<O, nat>, live: map<O, seq<byte>>, m: seq<byte>, o: O)
    requires Owned(t, slot) && Holds(t, slot, live, m) && o in slot
    ensures slot[o] < |t.used| && Holds(Clear(t, slot[o]), slot - {o}, live - {o}, m)
  {
    assert t.Used(slot[o]);
    var live' := live - {o};
    forall o' | o' in live'
      ensures (slot - {o})[o'] < |t.entries| && InMemory(t.entries[slot[o']], m)
      ensures live'[o'] == m[t.entries[slot[o']].base..t.entries[slot[o']].End()]
    {
      assert live'[o'] == live[o'];
    }
  }

  lemma Untouched(m: seq<byte>, m': seq<byte>, d: int, s: seq<byte>, sOff: int, n: int, lo: int, hi: int)
    requires Copied(m', m, d, s, sOff, n) && 0 <= lo <= hi <= |m|
    requires hi <= d || d + n <= lo
    ensures m'[lo..hi] == m[lo..hi]
  {
    forall k | lo <= k < hi ensures m'[k] == m[k] { }
  }

  lemma Stored(m: seq<byte>, m': seq<byte>, d: int, s: seq<byte>, sOff: int, n: int)
    requires Copied(m', m, d, s, sOff, n)
    ensures m'[d..d + n] == s[sOff..sOff + n]
  {
    var x, y := m'[d..d + n], s[sOff..sOff + n];
    forall k | 0 <= k < n ensures x[k] == y[k] {
      assert m'[d + k] == s[sOff + k];
    }
  }

  /** An entry arrives at slot `i`: its bytes are stored, and no other live entry is overwritten. */
  lemma HoldsArrive<O>(t: Table<O>, slot: map<O, nat>, live: map<O, seq<byte>>, m: seq<byte>, m': seq<byte>,
                             i: nat, e: Entry<O>, s: seq<byte>, sOff: int)
    requires Owned(t, slot) && Holds(t, slot, live, m) && i < |t.used| && !t.used[i] && e.owner !in slot
    requires Layout(Place(t, i, e), |m|) && Copied(m', m, e.base, s, sOff, e.size)
    ensures Holds(Place(t, i, e), slot[e.owner := i], live[e.owner := s[sOff..sOff + e.size]], m')
  {
    var t', slot', live' := Place(t, i, e), slot[e.owner := i], live[e.owner := s[sOff..sOff + e.size]];
    assert t'.used[i];
    Stored(m, m', e.base, s, sOff, e.size);
    forall o | o in live'
      ensures slot'[o] < |t'.entries| && InMemory(t'.entries[slot'[o]], m')
      ensures live'[o] == m'[t'.entries[slot'[o]].base..t'.entries[slot'[o]].End()]
    {
      if o != e.owner {
        assert live'[o] == live[o] && t.Used(slot[o]) && t'.used[slot[o]];
        var f := t.entries[slot[o]];
        Untouched(m, m', e.base, s, sOff, e.size, f.base, f.End());
      }
    }
  }

  /** An entry moves within its pool, over whatever its old place overlaps: all handles keep their bytes. */
  lemma HoldsMove<O>(t: Table<O>, slot: map<O, nat>, live: map<O, seq<byte>>, m: seq<byte>, m': seq<byte>,
                           from: nat, to: nat, base: int)
    requires Owned(t, slot) && Holds(t, slot, live, m) && t.Used(from) && to < |t.used| && (to == from || !t.used[to])
    requires Layout(Moved(t, from, to, base), |m|)
    requires Copied(m', m, base, m, t.entries[from].base, t.entries[from].size)
    ensures Holds(Moved(t, from, to, base), slot[t.entries[from].owner := to], live, m')
  {
    var o, e := t.entries[from].owner, t.entries[from].(base := base);
    assert slot[o] == from;
    HoldsClear(t, slot, live, m, o);
    OwnedClear(t, slot, o);
    HoldsArrive(Clear(t, from), slot - {o}, live - {o}, m, m', to, e, m, t.entries[from].base);
    PutBack(slot, o, to);
    PutBack(live, o, live[o]);
  }

  lemma PutBack<K, V>(m: map<K, V>, k: K, v: V)
    ensures (m - {k})[k := v] == m[k := v]
    ensures k in m && m[k] == v ==> m[k := v] == m
  {
  }

  /** The table, handles and contents without whatever slot `i` holds: a placeholder that is about to
      be overwritten. */
  ghost function Vacated<O>(t: Table<O>, i: nat): (r: Table<O>)
    requires i < |t.used|
    ensures |r.used| == |t.used| && r.entries == t.entries
  {
    if t.used[i] then Clear(t, i) else t
  }

  ghost function Without<O, V>(t: Table<O>, m: map<O, V>, i: nat): (r: map<O, V>)
    requires i < |t.used| == |t.entries|
  {
    if t.used[i] then m - {t.entries[i].owner} else m
  }

  lemma WithoutKeeps<O, V>(t: Table<O>, m: map<O, V>, i: nat)
    requires i < |t.used| == |t.entries|
    ensures Without(t, m, i).Keys <= m.Keys
    ensures forall o {:trigger Without(t, m, i)[o]} :: o in Without(t, m, i) ==> Without(t, m, i)[o] == m[o]
  {
  }

  lemma VacatedOk<O>(t: Table<O>, slot: map<O, nat>, live: map<O, seq<byte>>, m: seq<byte>, n: int, i: nat)
    requires Layout(t, n) && Owned(t, slot) && Holds(t, slot, live, m) && i < |t.used|
    ensures Layout(Vacated(t, i), n) && !Vacated(t, i).used[i] && |t.used| == |t.entries|
    ensures Owned(Vacated(t, i), Without(t, slot, i))
    ensures Holds(Vacated(t, i), Without(t, slot, i), Without(t, live, i), m)
  {
    if t.used[i] {
      OwnerOf(t, slot, i);
      ClearOk(t, i, n);
      OwnedClear(t, slot, t.entries[i].owner);
      HoldsClear(t, slot, live, m, t.entries[i].owner);
    }
  }

  /** An entry leaves a pool. */
  lemma Departs<O>(t: Table<O>, slot: map<O, nat>, live: map<O, seq<byte>>, m: seq<byte>, n: int, i: nat)
    requires Layout(t, n) && Owned(t, slot) && Holds(t, slot, live, m) && t.Used(i)
    ensures |t.used| == |t.entries| && t.entries[i].owner in slot && slot[t.entries[i].owner] == i
    ensures var o := t.entries[i].owner;
            Layout(Clear(t, i), n) && Owned(Clear(t, i), slot - {o}) && Holds(Clear(t, i), slot - {o}, live - {o}, m)
  {
    OwnerOf(t, slot, i);
    ClearOk(t, i, n);
    OwnedClear(t, slot, t.entries[i].owner);
    HoldsClear(t, slot, live, m, t.entries[i].owner);
  }

  /** An entry with its bytes arrives in slot `i`, over a placeholder if there is one. */
  lemma Arrives<O>(t: Table<O>, slot: map<O, nat>, live: map<O, seq<byte>>, m: seq<byte>, m': seq<byte>,
                   i: nat, e: Entry<O>, s: seq<byte>, sOff: int)
    requires Layout(t, |m|) && Owned(t, slot) && Holds(t, slot, live, m) && i < |t.used| && e.owner !in slot
    requires |t.used| == |t.entries| && Fits(Vacated(t, i), i, e, |m|) && Copied(m', m, e.base, s, sOff, e.size)
    ensures var t' := Place(Vacated(t, i), i, e);
            && Layout(t', |m|) && Owned(t', Without(t, slot, i)[e.owner := i])
            && Holds(t', Without(t, slot, i)[e.owner := i], Without(t, live, i)[e.owner := s[sOff..sOff + e.size]], m')
    ensures Table(t.used[i := true], t.entries[i := e]) == Place(Vacated(t, i), i, e)
  {
    VacatedOk(t, slot, live, m, |m|, i);
    WithoutKeeps(t, slot, i);
    PlaceOk(Vacated(t, i), i, e, |m|);
    OwnedPlace(Vacated(t, i), Without(t, slot, i), i, e);
    HoldsArrive(Vacated(t, i), Without(t, slot, i), Without(t, live, i), m, m', i, e, s, sOff);
  }

  lemma GrownContents<O>(t: Table<O>, slot: map<O, nat>, live: map<O, seq<byte>>, m: seq<byte>, more: seq<Entry<O>>)
    requires Owned(t, slot) && Holds(t, slot, live, m)
    ensures Owned(Grown(t, more), slot) && Holds(Grown(t, more), slot, live, m)
  {
    var t' := Grown(t, more);
    forall o | o in slot ensures t'.Used(slot[o]) && t'.entries[slot[o]] == t.entries[slot[o]] {
      assert t.Used(slot[o]);
    }
  }

  /** Moving the next used entry down to the end of the packed prefix keeps the layout and extends the
      prefix by one. */
  lemma Compacts<O>(t: Table<O>, n: int, b: nat, to: nat)
    requires Layout(t, n) && Prefix(t, to) && IsNext(t.used, to, true, b)
    ensures to < |t.used| && Layout(Moved(t, b, to, Tail(t, to)), n) && Prefix(Moved(t, b, to, Tail(t, to)), to + 1)
    ensures 0 <= Tail(t, to)
  {
    var e := t.entries[b].(base := Tail(t, to));
    assert EntryOk(t.entries[b], b, n);
    if to > 0 {
      assert t.used[to - 1] && EntryOk(t.entries[to - 1], to - 1, n);
    }
    ClearOk(t, b, n);
    var u := Clear(t, b);
    forall j | b < j < |t.used| && t.used[j] ensures e.End() <= t.entries[j].base {
      assert t.entries[b].End() <= t.entries[j].base;
    }
    forall j | 0 <= j < to ensures t.entries[j].End() <= e.base {
      assert t.used[j] && (j < to - 1 ==> t.entries[j].End() <= t.entries[to - 1].base);
    }
    PlaceOk(u, to, e, n);
    PrefixExtends(t, u, Moved(t, b, to, Tail(t, to)), b, to, e);
  }

  lemma PrefixExtends<O>(t: Table<O>, u: Table<O>, r: Table<O>, b: nat, to: nat, e: Entry<O>)
    requires Prefix(t, to) && to <= b < |t.used| && u == Clear(t, b) && r == Place(u, to, e) && e.base == Tail(t, to)
    ensures Prefix(r, to + 1)
  {
    forall i | 0 <= i < to + 1 ensures r.used[i] && r.entries[i].base == Tail(r, i) {
      assert i < to ==> t.used[i];
    }
  }

  lemma MovedTotal<O>(t: Table<O>, from: nat, to: nat, base: int)
    requires |t.used| == |t.entries| && t.Used(from) && to < |t.used| && (to == from || !t.used[to])
    ensures Total(Moved(t, from, to, base)) == Total(t)
    ensures Count(Moved(t, from, to, base), |t.used|) == Count(t, |t.used|)
  {
    SumClear(t, from, |t.used|);
    SumPlace(Clear(t, from), to, t.entries[from].(base := base), |t.used|);
  }

  lemma {:induction false} CountFull<O>(t: Table<O>, k: nat)
    requires k <= |t.used|
    ensures Count(t, k) == k <==> forall i :: 0 <= i < k ==> t.used[i]
  {
    if k > 0 { CountFull(t, k - 1); }
  }

  lemma FreeIsCounted<O>(t: Table<O>)
    ensures HasFree(t) <==> Count(t, |t.used|) < |t.used|
  {
    CountFull(t, |t.used|);
  }

  /** A byte written inside one entry changes no other. */
  lemma HoldsWrite<O>(t: Table<O>, slot: map<O, nat>, live: map<O, seq<byte>>, m: seq<byte>, o: O, k: nat, v: byte)
    requires Layout(t, |m|) && Owned(t, slot) && Holds(t, slot, live, m) && o in slot && k < |live[o]|
    ensures var at := t.entries[slot[o]].base + k;
            0 <= at < |m| && Holds(t, slot, live[o := live[o][k := v]], m[at := v])
  {
    var e := t.entries[slot[o]];
    var m', live' := m[e.base + k := v], live[o := live[o][k := v]];
    assert t.used[slot[o]];
    forall x | x in live'
      ensures slot[x] < |t.entries| && InMemory(t.entries[slot[x]], m')
      ensures live'[x] == m'[t.entries[slot[x]].base..t.entries[slot[x]].End()]
    {
      var f := t.entries[slot[x]];
      assert t.used[slot[x]] && live[x] == m[f.base..f.End()];
      if x != o {
        assert f.End() <= e.base || e.End() <= f.base;
      }
    }
  }
}
