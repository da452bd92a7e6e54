/** The entry table of a memory pool as a value: where used entries may lie, what they add up to, and
    where first-fit can place the next one. Offsets are taken from the base of the pool. */
module PoolLayout {
  import opened Bitmap

  /** TEGRA_EXA_OFFSET_ALIGN: every allocation is a positive multiple of this. */
  const ALIGN := 128

  datatype Entry<O> = Entry(base: int, size: int, owner: O) {
    function End(): int { base + size }
  }

  datatype Table<O> = Table(used: seq<bool>, entries: seq<Entry<O>>) {
    ghost predicate Used(i: int) { 0 <= i < |used| && used[i] }
  }

  /** One used entry in slot `i` of a pool of `n` bytes. An entry starts at least 128 bytes per slot
      into the pool, which is what keeps slot numbers small. */
  ghost predicate EntryOk<O>(e: Entry<O>, i: int, n: int) {
    && 0 < e.size && e.size % ALIGN == 0 && e.base % ALIGN == 0
    && ALIGN * i <= e.base && e.End() <= n
    && (i == 0 ==> e.base == 0)
  }

  /** Used entries are in bounds, aligned, ordered by slot and disjoint; slot 0 is at the pool base. */
  ghost predicate Layout<O>(t: Table<O>, n: int) {
    && |t.entries| == |t.used|
    && (forall i {:trigger t.used[i]} :: 0 <= i < |t.used| && t.used[i] ==> EntryOk(t.entries[i], i, n))
    && (forall i, j {:trigger t.used[i], t.used[j]} :: 0 <= i < j < |t.used| && t.used[i] && t.used[j] ==>
          t.entries[i].End() <= t.entries[j].base)
  }

  /** The bytes held by the used entries among the first `k` slots. */
  ghost function Sum<O>(t: Table<O>, k: nat): int
    requires k <= |t.used| == |t.entries|
  {
    if k == 0 then 0 else Sum(t, k - 1) + if t.used[k - 1] then t.entries[k - 1].size else 0
  }

  ghost function Total<O>(t: Table<O>): int
    requires |t.used| == |t.entries|
  {
    Sum(t, |t.used|)
  }

  /** The number of used entries among the first `k` slots. */
  ghost function Count<O>(t: Table<O>, k: nat): (c: nat)
    requires k <= |t.used|
    ensures c <= k
  {
    if k == 0 then 0 else Count(t, k - 1) + if t.used[k - 1] then 1 else 0
  }

  ghost predicate HasFree<O>(t: Table<O>) {
    exists i :: 0 <= i < |t.used| && !t.used[i]
  }

  // ---- Placing and clearing one entry -------------------------------------------------------------

  ghost function Place<O>(t: Table<O>, i: nat, e: Entry<O>): (r: Table<O>)
    requires i < |t.used| == |t.entries|
  {
    Table(t.used[i := true], t.entries[i := e])
  }

  ghost function Clear<O>(t: Table<O>, i: nat): (r: Table<O>)
    requires i < |t.used|
  {
    t.(used := t.used[i := false])
  }

  /** Slot `i` may hold `e`: it lies between the used entries before and after it. */
  ghost predicate Fits<O>(t: Table<O>, i: nat, e: Entry<O>, n: int)
    requires |t.used| == |t.entries|
  {
    && i < |t.used| && EntryOk(e, i, n)
    && (forall j {:trigger t.used[j]} :: 0 <= j < i && t.used[j] ==> t.entries[j].End() <= e.base)
    && (forall j {:trigger t.used[j]} :: i < j < |t.used| && t.used[j] ==> e.End() <= t.entries[j].base)
  }

  lemma PlaceOk<O>(t: Table<O>, i: nat, e: Entry<O>, n: int)
    requires Layout(t, n) && Fits(t, i, e, n)
    ensures Layout(Place(t, i, e), n)
  {
  }

  lemma ClearOk<O>(t: Table<O>, i: nat, n: int)
    requires Layout(t, n) && i < |t.used|
    ensures Layout(Clear(t, i), n)
  {
  }

  lemma {:induction false} SumExt<O>(t: Table<O>, t': Table<O>, k: nat)
    requires k <= |t.used| == |t.entries| && |t.used| == |t'.used| == |t'.entries|
    requires forall j ::
               0 <= j < k ==> t.used[j] == t'.used[j] && (t.used[j] ==> t.entries[j].size == t'.entries[j].size)
    ensures Sum(t, k) == Sum(t', k) && Count(t, k) == Count(t', k)
  {
    if k > 0 { SumExt(t, t', k - 1); }
  }

  lemma {:induction false} SumPlace<O>(t: Table<O>, i: nat, e: Entry<O>, k: nat)
    requires i < k <= |t.used| == |t.entries| && !t.used[i]
    ensures Sum(Place(t, i, e), k) == Sum(t, k) + e.size
    ensures Count(Place(t, i, e), k) == Count(t, k) + 1
  {
    if i < k - 1 {
      SumPlace(t, i, e, k - 1);
    } else {
      SumExt(t, Place(t, i, e), i);
    }
  }

  lemma {:induction false} SumClear<O>(t: Table<O>, i: nat, k: nat)
    requires i < k <= |t.used| == |t.entries| && t.used[i]
    ensures Sum(Clear(t, i), k) == Sum(t, k) - t.entries[i].size
    ensures Count(Clear(t, i), k) == Count(t, k) - 1
  {
    if i < k - 1 {
      SumClear(t, i, k - 1);
    } else {
      SumExt(t, Clear(t, i), i);
    }
  }

  /** Adding unused slots at the end, as growing the bitmap does. */
  ghost function Grown<O>(t: Table<O>, more: seq<Entry<O>>): (r: Table<O>) {
    Table(t.used + seq(|more|, _ => false), t.entries + more)
  }

  lemma GrownOk<O>(t: Table<O>, more: seq<Entry<O>>, n: int)
    requires Layout(t, n)
    ensures Layout(Grown(t, more), n) && Total(Grown(t, more)) == Total(t)
    ensures |more| > 0 ==> HasFree(Grown(t, more))
  {
    GrownSum(t, more, |t.used| + |more|);
    if |more| > 0 { assert !Grown(t, more).used[|t.used|]; }
  }

  lemma {:induction false} GrownSum<O>(t: Table<O>, more: seq<Entry<O>>, k: nat)
    requires |t.used| == |t.entries| && k <= |t.used| + |more|
    ensures Sum(Grown(t, more), k) == Sum(t, if k <= |t.used| then k else |t.used|)
    ensures Count(Grown(t, more), k) == Count(t, if k <= |t.used| then k else |t.used|)
  {
    if k > 0 { GrownSum(t, more, k - 1); }
  }

  // ---- Conservation of space ----------------------------------------------------------------------

  /** The entries below a point fit below it. */
  lemma {:induction false} SumBelow<O>(t: Table<O>, n: int, k: nat, x: int)
    requires Layout(t, n) && k <= |t.used| && 0 <= x
    requires forall i :: 0 <= i < k && t.used[i] ==> t.entries[i].End() <= x
    ensures 0 <= Sum(t, k) <= x
  {
    if k > 0 {
      if t.used[k - 1] {
        SumBelow(t, n, k - 1, t.entries[k - 1].base);
      } else {
        SumBelow(t, n, k - 1, x);
      }
    }
  }

  /** The entries above a point fit above it. */
  lemma {:induction false} SumAbove<O>(t: Table<O>, n: int, k: nat, m: nat, y: int, z: int)
    requires Layout(t, n) && k <= m <= |t.used| && y <= z
    requires forall i :: k <= i < m && t.used[i] ==> y <= t.entries[i].base && t.entries[i].End() <= z
    ensures Sum(t, m) - Sum(t, k) <= z - y
    decreases m - k
  {
    if k < m {
      if t.used[m - 1] {
        SumAbove(t, n, k, m - 1, y, t.entries[m - 1].base);
      } else {
        SumAbove(t, n, k, m - 1, y, z);
      }
    }
  }

  /** `remain` is never negative, and an empty pool has no used entry. */
  lemma {:induction false} TotalBounds<O>(t: Table<O>, n: int, k: nat)
    requires Layout(t, n) && k <= |t.used| && 0 <= n
    ensures 0 <= Sum(t, k) <= n
    ensures Sum(t, k) == 0 <==> forall i :: 0 <= i < k ==> !t.used[i]
    ensures Count(t, k) == 0 <==> forall i :: 0 <= i < k ==> !t.used[i]
  {
    SumBelow(t, n, k, n);
    if k > 0 { TotalBounds(t, n, k - 1); }
  }

  /** A slot number fits the 16-bit handle in every pool of up to 8 MiB. */
  lemma SlotFitsHandle<O>(t: Table<O>, n: int, i: nat)
    requires Layout(t, n) && t.Used(i) && n <= 0x80_0000
    ensures i < 0x1_0000
  {
    assert EntryOk(t.entries[i], i, n);
  }

  // ---- Packed tables ------------------------------------------------------------------------------

  /** Where the data of the entry before slot `k` ends. */
  ghost function Tail<O>(t: Table<O>, k: nat): int
    requires k <= |t.entries|
  {
    if k == 0 then 0 else t.entries[k - 1].End()
  }

  /** The first `k` slots are used and their data follows the pool base without gaps. */
  ghost predicate Prefix<O>(t: Table<O>, k: nat) {
    && k <= |t.used| == |t.entries|
    && forall i {:trigger t.used[i]} :: 0 <= i < k ==> t.used[i] && t.entries[i].base == Tail(t, i)
  }

  /** ... and no other slot is used. */
  ghost predicate Packed<O>(t: Table<O>, k: nat) {
    Prefix(t, k) && forall i {:trigger t.used[i]} :: k <= i < |t.used| ==> !t.used[i]
  }

  lemma {:induction false} PrefixSum<O>(t: Table<O>, k: nat)
    requires Prefix(t, k)
    ensures Sum(t, k) == Tail(t, k) && Count(t, k) == k
  {
    if k > 0 { PrefixSum(t, k - 1); }
  }

  lemma {:induction false} PackedSum<O>(t: Table<O>, k: nat, m: nat)
    requires Packed(t, k) && k <= m <= |t.used|
    ensures Sum(t, m) == Tail(t, k) && Count(t, m) == k
  {
    if m > k { PackedSum(t, k, m - 1); } else { PrefixSum(t, k); }
  }

  lemma PackedTotal<O>(t: Table<O>, k: nat)
    requires Packed(t, k)
    ensures Total(t) == Tail(t, k) && Count(t, |t.used|) == k
  {
    PackedSum(t, k, |t.used|);
  }

  // ---- First fit ----------------------------------------------------------------------------------

  /** Slot `e` is unused and directly follows a used one (or is slot 0): the slots first-fit tries.
      The slot past the end stands for the one a grown bitmap would offer. */
  ghost predicate Head<O>(t: Table<O>, e: int) {
    0 <= e <= |t.used| && (e < |t.used| ==> !t.used[e]) && (e > 0 ==> t.used[e - 1])
  }

  /** The gap that starts at slot `e` is too small: the next entry or the end of the pool is in the way. */
  ghost predicate Blocked<O>(t: Table<O>, n: int, e: int, size: int)
    requires 0 <= e <= |t.used| == |t.entries|
  {
    || n < Tail(t, e) + size
    || exists b :: e < b < |t.used| && t.used[b] && t.entries[b].base < Tail(t, e) + size
  }

  /** No gap holds `size` bytes. */
  ghost predicate NoFit<O>(t: Table<O>, n: int, size: int)
    requires |t.used| == |t.entries|
  {
    forall e {:trigger Head(t, e)} :: Head(t, e) ==> Blocked(t, n, e, size)
  }

  /** No gap that has a slot holds `size` bytes; one that a grown bitmap would offer may. */
  ghost predicate NoSlot<O>(t: Table<O>, n: int, size: int)
    requires |t.used| == |t.entries|
  {
    TriedUpTo(t, n, size, |t.used| - 1)
  }

  /** There is no slot behind the last entry: first-fit can only go on if the bitmap grows. */
  ghost predicate LastUsed<O>(t: Table<O>) {
    t.used != [] && t.used[|t.used| - 1]
  }

  lemma FitsTried<O>(t: Table<O>, n: int, size: int)
    requires |t.used| == |t.entries|
    ensures NoFit(t, n, size) <==> TriedUpTo(t, n, size, |t.used|)
    ensures NoFit(t, n, size) ==> NoSlot(t, n, size)
  {
  }

  lemma TriedMonotone<O>(t: Table<O>, n: int, size: int, more: int, k: int)
    requires |t.used| == |t.entries| && TriedUpTo(t, n, size, k) && size <= more
    ensures TriedUpTo(t, n, more, k)
  {
    forall e | Head(t, e) && e <= k ensures Blocked(t, n, e, more) {
      assert Blocked(t, n, e, size);
    }
  }

  /** First-fit failure is monotone in the size asked for. */
  lemma NoFitMonotone<O>(t: Table<O>, n: int, size: int, more: int)
    requires |t.used| == |t.entries| && NoFit(t, n, size) && size <= more
    ensures NoFit(t, n, more)
  {
    TriedMonotone(t, n, size, more, |t.used|);
  }

  lemma TriedPlace<O>(t: Table<O>, n: int, size: int, i: nat, e: Entry<O>, k: int)
    requires Layout(t, n) && TriedUpTo(t, n, size, k)
    requires i < |t.used| && Head(t, i) && e.base == Tail(t, i) && 0 < e.size
    ensures TriedUpTo(Place(t, i, e), n, size, k)
  {
    var t' := Place(t, i, e);
    forall h | Head(t', h) && h <= k ensures Blocked(t', n, h, size) {
      if h == i + 1 {
        assert Blocked(t, n, i, size);
        if !(n < Tail(t, i) + size) {
          var b :| i < b < |t.used| && t.used[b] && t.entries[b].base < Tail(t, i) + size;
          assert h < b && t'.used[b] && t'.entries[b] == t.entries[b];
        }
      } else {
        assert Head(t, h) && Tail(t', h) == Tail(t, h);
        assert Blocked(t, n, h, size);
        if !(n < Tail(t, h) + size) {
          var b :| h < b < |t.used| && t.used[b] && t.entries[b].base < Tail(t, h) + size;
          assert t'.used[b] && t'.entries[b] == t.entries[b];
        }
      }
    }
  }

  /** ... and later placements and bitmap growth never create a larger gap. */
  lemma NoFitPlace<O>(t: Table<O>, n: int, size: int, i: nat, e: Entry<O>)
    requires Layout(t, n) && NoFit(t, n, size)
    requires i < |t.used| && Head(t, i) && e.base == Tail(t, i) && 0 < e.size
    ensures NoFit(Place(t, i, e), n, size)
  {
    TriedPlace(t, n, size, i, e, |t.used|);
  }

  lemma NoFitGrown<O>(t: Table<O>, n: int, size: int, more: seq<Entry<O>>)
    requires Layout(t, n) && NoFit(t, n, size)
    ensures NoFit(Grown(t, more), n, size)
  {
    var t' := Grown(t, more);
    forall h | Head(t', h) ensures Blocked(t', n, h, size) {
      assert h > 0 ==> t'.used[h - 1];
      assert Head(t, h) && Tail(t', h) == Tail(t, h);
      assert Blocked(t, n, h, size);
      if !(n < Tail(t, h) + size) {
        var b :| h < b < |t.used| && t.used[b] && t.entries[b].base < Tail(t, h) + size;
        assert t'.used[b] && t'.entries[b] == t.entries[b];
      }
    }
  }

  /** A request larger than the free space fits nowhere. */
  lemma TooLarge<O>(t: Table<O>, n: int, size: int)
    requires Layout(t, n) && 0 <= n && n - Total(t) < size
    ensures NoFit(t, n, size)
  {
    forall e | Head(t, e) ensures Blocked(t, n, e, size) {
      if !Blocked(t, n, e, size) {
        var x := Tail(t, e);
        assert e > 0 ==> t.used[e - 1] && EntryOk(t.entries[e - 1], e - 1, n);
        SumBelow(t, n, e, x);
        forall i | e <= i < |t.used| && t.used[i] ensures x + size <= t.entries[i].base && t.entries[i].End() <= n {
          assert EntryOk(t.entries[i], i, n);
        }
        SumAbove(t, n, e, |t.used|, x + size, n);
        assert false;
      }
    }
  }

  /** In a packed pool first-fit can serve every request up to the free space. */
  lemma PackedFits<O>(t: Table<O>, n: int, k: nat, size: int)
    requires Layout(t, n) && Packed(t, k) && size <= n - Total(t)
    ensures Head(t, k) && !Blocked(t, n, k, size) && !NoFit(t, n, size)
  {
    PackedTotal(t, k);
    assert Head(t, k);
  }

  /** A slot that first-fit chooses. */
  lemma HeadFits<O>(t: Table<O>, n: int, i: nat, e: Entry<O>)
    requires Layout(t, n) && i < |t.used| && Head(t, i) && !Blocked(t, n, i, e.size)
    requires e.base == Tail(t, i) && 0 < e.size && e.size % ALIGN == 0
    ensures Fits(t, i, e, n)
  {
    if i > 0 { assert EntryOk(t.entries[i - 1], i - 1, n); }
  }

  /** First-fit has tried every gap up to slot `b` in vain. */
  ghost predicate TriedUpTo<O>(t: Table<O>, n: int, size: int, b: int)
    requires |t.used| == |t.entries|
  {
    forall h {:trigger Head(t, h)} :: Head(t, h) && h <= b ==> Blocked(t, n, h, size)
  }

  /** What follows slot `b` when there is no unused slot behind `b`. */
  ghost predicate OnlyNewSlots<O>(t: Table<O>, b: int, l: nat) {
    && -1 <= b < l < |t.used|
    && (forall i :: b < i < l ==> t.used[i])
    && (forall i :: l <= i < |t.used| ==> !t.used[i])
  }

  /** The gap in front of `b`, the next used slot after `e`, or of the pool's end. */
  ghost function GapEnd<O>(t: Table<O>, n: int, b: int): int
    requires b < |t.entries|
  {
    if b < 0 then n else t.entries[b].base
  }

  /** The test of the search loop decides whether the gap at `e` is blocked. */
  lemma GapTest<O>(t: Table<O>, n: int, size: int, e: nat, b: int)
    requires Layout(t, n) && e < |t.used| && Head(t, e) && IsNext(t.used, e + 1, true, b) && 0 < size
    ensures GapEnd(t, n, b) - Tail(t, e) < size <==> Blocked(t, n, e, size)
    ensures ALIGN * e <= Tail(t, e)
  {
    if e > 0 { assert EntryOk(t.entries[e - 1], e - 1, n); }
    if b >= 0 { assert EntryOk(t.entries[b], b, n); }
  }

  lemma TryNext<O>(t: Table<O>, n: int, size: int, b: int, e: nat, b': int)
    requires Layout(t, n) && TriedUpTo(t, n, size, b) && -1 <= b
    requires e < |t.used| && IsNext(t.used, b + 1, false, e) && Blocked(t, n, e, size)
    requires IsNext(t.used, e + 1, true, b')
    ensures b' >= 0 ==> TriedUpTo(t, n, size, b')
    ensures b' < 0 ==> NoFit(t, n, size)
  {
    forall h | Head(t, h) && (b' < 0 || h <= b') ensures Blocked(t, n, h, size) {
    }
  }

  lemma TriedStart<O>(t: Table<O>, n: int, size: int, b: int)
    requires |t.used| == |t.entries| && b < |t.used| && forall i :: 0 <= i <= b ==> t.used[i]
    ensures TriedUpTo(t, n, size, b)
  {
  }

  lemma TriedTo<O>(t: Table<O>, n: int, size: int, b: int, e: int)
    requires |t.used| == |t.entries| && TriedUpTo(t, n, size, b) && -1 <= b && 0 <= e && IsNext(t.used, b + 1, false, e)
    ensures TriedUpTo(t, n, size, e - 1)
  {
  }

  lemma NoFitTried<O>(t: Table<O>, n: int, size: int)
    requires |t.used| == |t.entries| && NoFit(t, n, size)
    ensures TriedUpTo(t, n, size, |t.used| - 1)
  {
  }

  lemma TriedGrown<O>(t: Table<O>, n: int, size: int, b: int, more: seq<Entry<O>>)
    requires Layout(t, n) && TriedUpTo(t, n, size, b) && b < |t.used|
    ensures TriedUpTo(Grown(t, more), n, size, b)
  {
    var t' := Grown(t, more);
    forall h | Head(t', h) && h <= b ensures Blocked(t', n, h, size) {
      assert Head(t, h) && Tail(t', h) == Tail(t, h);
      if !(n < Tail(t, h) + size) {
        var c :| h < c < |t.used| && t.used[c] && t.entries[c].base < Tail(t, h) + size;
        assert t'.used[c] && t'.entries[c] == t.entries[c];
      }
    }
  }

  /** First-fit keeps a packed pool packed. */
  lemma PackedPlace<O>(t: Table<O>, k: nat, i: nat, e: Entry<O>)
    requires Packed(t, k) && i < |t.used| && Head(t, i) && e.base == Tail(t, i)
    ensures i == k && Packed(Place(t, i, e), k + 1)
  {
    var t' := Place(t, i, e);
    assert i > 0 ==> t.used[i - 1];
    forall j | 0 <= j < k + 1 ensures t'.used[j] && t'.entries[j].base == Tail(t', j) {
      assert j < k ==> t.used[j];
    }
  }

  lemma PackedGrown<O>(t: Table<O>, k: nat, more: seq<Entry<O>>)
    requires Packed(t, k)
    ensures Packed(Grown(t, more), k)
  {
    var t' := Grown(t, more);
    forall j | 0 <= j < k ensures t'.used[j] && t'.entries[j].base == Tail(t', j) {
      assert t.used[j];
    }
  }

  /** Growth does not block a gap. */
  lemma OpenGrown<O>(t: Table<O>, n: int, size: int, e: nat, more: seq<Entry<O>>)
    requires |t.used| == |t.entries| && e < |t.used| && Head(t, e) && !Blocked(t, n, e, size)
    ensures Head(Grown(t, more), e) && !Blocked(Grown(t, more), n, e, size)
  {
    var t' := Grown(t, more);
    assert Tail(t', e) == Tail(t, e);
    forall b | e < b < |t'.used| && t'.used[b] ensures t'.entries[b].base >= Tail(t', e) + size {
      assert t'.entries[b] == t.entries[b];
    }
  }

  lemma GrownTwice<O>(t: Table<O>, a: seq<Entry<O>>, b: seq<Entry<O>>)
    requires |t.used| == |t.entries|
    ensures Grown(Grown(t, a), b) == Grown(t, a + b)
  {
  }

  lemma TriedAll<O>(t: Table<O>, n: int, size: int, b: int)
    requires |t.used| == |t.entries| && TriedUpTo(t, n, size, b) && -1 <= b && IsNext(t.used, b + 1, false, -1)
    ensures TriedUpTo(t, n, size, |t.used| - 1)
  {
    forall h | Head(t, h) && h <= |t.used| - 1 ensures Blocked(t, n, h, size) {
      assert h <= b;
    }
  }

  /** The table after an allocation: bitmap growth, the new entry, bitmap growth again. */
  ghost function AfterAlloc<O>(t: Table<O>, m1: seq<Entry<O>>, e: nat, x: Entry<O>, m2: seq<Entry<O>>): (r: Table<O>)
    requires |t.used| == |t.entries| && e < |t.used| + |m1|
  {
    Grown(Place(Grown(t, m1), e, x), m2)
  }

  /** First-fit chose slot `e`: its gap is large enough and no earlier gap is. */
  ghost predicate FirstFitAt<O>(t: Table<O>, n: int, e: int, base: int, size: int)
    requires |t.used| == |t.entries|
  {
    && 0 <= e < |t.used| && Head(t, e) && base == Tail(t, e)
    && !Blocked(t, n, e, size) && TriedUpTo(t, n, size, e - 1)
  }

  lemma FirstFitFits<O>(t: Table<O>, n: int, e: nat, x: Entry<O>)
    requires Layout(t, n) && FirstFitAt(t, n, e, x.base, x.size) && 0 < x.size && x.size % ALIGN == 0
    ensures Fits(t, e, x, n) && !t.used[e]
  {
    HeadFits(t, n, e, x);
  }

  lemma AllocTotal<O>(t: Table<O>, n: int, m1: seq<Entry<O>>, e: nat, x: Entry<O>, m2: seq<Entry<O>>)
    requires Layout(t, n) && FirstFitAt(Grown(t, m1), n, e, x.base, x.size) && 0 < x.size && x.size % ALIGN == 0
    ensures Total(AfterAlloc(t, m1, e, x, m2)) == Total(t) + x.size
  {
    var g := Grown(t, m1);
    GrownOk(t, m1, n);
    HeadFits(g, n, e, x);
    PlaceOk(g, e, x, n);
    GrownOk(Place(g, e, x), m2, n);
    SumPlace(g, e, x, |g.used|);
  }

  lemma AllocPacked<O>(t: Table<O>, n: int, k: nat, m1: seq<Entry<O>>, e: nat, x: Entry<O>, m2: seq<Entry<O>>)
    requires Packed(t, k) && FirstFitAt(Grown(t, m1), n, e, x.base, x.size)
    ensures e == k && Packed(AfterAlloc(t, m1, e, x, m2), k + 1)
  {
    PackedGrown(t, k, m1);
    PackedPlace(Grown(t, m1), k, e, x);
    PackedGrown(Place(Grown(t, m1), e, x), k + 1, m2);
  }

  lemma AllocNoFit<O>(t: Table<O>, n: int, m1: seq<Entry<O>>, e: nat, x: Entry<O>, m2: seq<Entry<O>>, size: int)
    requires Layout(t, n) && FirstFitAt(Grown(t, m1), n, e, x.base, x.size)
    requires 0 < x.size && x.size % ALIGN == 0 && NoFit(t, n, size)
    ensures NoFit(AfterAlloc(t, m1, e, x, m2), n, size)
  {
    var g := Grown(t, m1);
    GrownOk(t, m1, n);
    NoFitGrown(t, n, size, m1);
    HeadFits(g, n, e, x);
    PlaceOk(g, e, x, n);
    NoFitPlace(g, n, size, e, x);
    NoFitGrown(Place(g, e, x), n, size, m2);
  }

  /** As long as the bitmap does not grow, an allocation gives no gap a slot. */
  lemma AllocNoSlot<O>(t: Table<O>, n: int, e: nat, x: Entry<O>, size: int)
    requires Layout(t, n) && FirstFitAt(Grown(t, []), n, e, x.base, x.size) && e < |t.used|
    requires 0 < x.size && x.size % ALIGN == 0 && NoSlot(t, n, size)
    ensures NoSlot(AfterAlloc(t, [], e, x, []), n, size)
  {
    assert Grown(t, []) == t && Grown(Place(t, e, x), []) == Place(t, e, x);
    TriedPlace(t, n, size, e, x, |t.used| - 1);
  }

  /** An open gap is found, whatever growth comes first. */
  lemma OpenIsFound<O>(t: Table<O>, n: int, size: int, e: nat, more: seq<Entry<O>>)
    requires |t.used| == |t.entries| && e < |t.used| && Head(t, e) && !Blocked(t, n, e, size)
    ensures !TriedUpTo(Grown(t, more), n, size, |Grown(t, more).used| - 1)
  {
    OpenGrown(t, n, size, e, more);
    assert Head(Grown(t, more), e);
  }

  /** First-fit in a packed pool with a free slot cannot fail for want of space. */
  lemma PackedIsFound<O>(t: Table<O>, n: int, k: nat, size: int, more: seq<Entry<O>>)
    requires Layout(t, n) && Packed(t, k) && HasFree(t) && size <= n - Total(t)
    ensures !TriedUpTo(Grown(t, more), n, size, |Grown(t, more).used| - 1)
  {
    PackedFits(t, n, k, size);
    OpenIsFound(t, n, size, k, more);
  }

  /** When first-fit fails for want of a gap, something is in the way. */
  lemma TriedNonEmpty<O>(t: Table<O>, n: int, size: int)
    requires Layout(t, n) && HasFree(t) && size <= n - Total(t) && TriedUpTo(t, n, size, |t.used| - 1)
    ensures exists i :: 0 <= i < |t.used| && t.used[i]
  {
    if forall i :: 0 <= i < |t.used| ==> !t.used[i] {
      assert Packed(t, 0);
      PackedFits(t, n, 0, size);
    }
  }

  // ---- Tables that differ only in their owners ----------------------------------------------------

  ghost predicate SameShape<O>(t: Table<O>, t': Table<O>) {
    && t.used == t'.used && |t.entries| == |t'.entries| == |t.used|
    && forall i {:trigger t.used[i]} {:trigger t'.entries[i]} :: 0 <= i < |t.used| ==>
         t'.entries[i].base == t.entries[i].base && t'.entries[i].size == t.entries[i].size
  }

  lemma ShapeTail<O>(t: Table<O>, t': Table<O>, e: nat)
    requires SameShape(t, t') && e <= |t.used|
    ensures Tail(t', e) == Tail(t, e)
  {
    if e > 0 { assert t.used[e - 1] || !t.used[e - 1]; }
  }

  lemma ShapePacked<O>(t: Table<O>, t': Table<O>, k: nat)
    requires SameShape(t, t') && Packed(t, k)
    ensures Packed(t', k)
  {
    forall i | 0 <= i < k ensures t'.used[i] && t'.entries[i].base == Tail(t', i) {
      assert t.used[i];
      ShapeTail(t, t', i);
    }
  }

  /** Nor does growing the bitmap close a gap. */
  lemma GrownFit<O>(t: Table<O>, n: int, size: int, more: seq<Entry<O>>)
    requires |t.used| == |t.entries| && NoFit(Grown(t, more), n, size)
    ensures NoFit(t, n, size)
  {
    var t' := Grown(t, more);
    forall h | Head(t, h) ensures Blocked(t, n, h, size) {
      assert Tail(t', h) == Tail(t, h) && (Head(t', h) || more == []);
      assert more == [] ==> t' == t;
      assert Blocked(t', n, h, size);
      if !(n < Tail(t, h) + size) {
        var c :| h < c < |t'.used| && t'.used[c] && t'.entries[c].base < Tail(t, h) + size;
        assert c < |t.used| && t.used[c] && t.entries[c] == t'.entries[c];
      }
    }
  }

  lemma ShapeTried<O>(t: Table<O>, t': Table<O>, n: int, size: int, k: int)
    requires SameShape(t, t') && TriedUpTo(t, n, size, k)
    ensures TriedUpTo(t', n, size, k)
  {
    forall e | Head(t', e) && e <= k ensures Blocked(t', n, e, size) {
      assert Head(t, e);
      ShapeTail(t, t', e);
      assert Blocked(t, n, e, size);
      if !(n < Tail(t, e) + size) {
        var b :| e < b < |t.used| && t.used[b] && t.entries[b].base < Tail(t, e) + size;
        assert t'.used[b];
      }
    }
  }

  lemma ShapeSum<O>(t: Table<O>, t': Table<O>)
    requires SameShape(t, t')
    ensures Total(t') == Total(t) && Count(t', |t'.used|) == Count(t, |t.used|) && HasFree(t') == HasFree(t)
  {
    forall j | 0 <= j < |t.used| ensures t.used[j] == t'.used[j] && t.entries[j].size == t'.entries[j].size {
      assert t.used[j] || !t.used[j];
    }
    SumExt(t, t', |t.used|);
  }

  lemma GrownCount<O>(t: Table<O>, more: seq<Entry<O>>)
    requires |t.used| == |t.entries|
    ensures |Grown(t, more).used| == |Grown(t, more).entries| == |t.used| + |more|
    ensures Count(Grown(t, more), |t.used| + |more|) == Count(t, |t.used|)
  {
    GrownSum(t, more, |t.used| + |more|);
  }

  lemma PlaceCount<O>(t: Table<O>, e: nat, x: Entry<O>)
    requires e < |t.used| == |t.entries| && !t.used[e]
    ensures |Place(t, e, x).used| == |Place(t, e, x).entries| == |t.used|
    ensures Count(Place(t, e, x), |t.used|) == Count(t, |t.used|) + 1
  {
    SumPlace(t, e, x, |t.used|);
  }

  lemma AllocCount<O>(t: Table<O>, m1: seq<Entry<O>>, e: nat, x: Entry<O>, m2: seq<Entry<O>>)
    requires |t.used| == |t.entries| && e < |t.used| + |m1| && !Grown(t, m1).used[e]
    ensures var r := AfterAlloc(t, m1, e, x, m2);
            Count(r, |r.used|) == Count(t, |t.used|) + 1 && |r.used| == |t.used| + |m1| + |m2|
  {
    hide Count, Sum, Grown, Place;
    GrownCount(t, m1);
    var g := Grown(t, m1);
    PlaceCount(g, e, x);
    GrownCount(Place(g, e, x), m2);
  }

  /** A used entry is no larger than the total, and is counted. */
  lemma {:induction false} EntryInTotal<O>(t: Table<O>, n: int, i: nat, k: nat)
    requires Layout(t, n) && 0 <= n && i < k <= |t.used| && t.used[i]
    ensures t.entries[i].size <= Sum(t, k) && 1 <= Count(t, k)
  {
    TotalBounds(t, n, k - 1);
    if i < k - 1 { EntryInTotal(t, n, i, k - 1); }
    if t.used[k - 1] { assert EntryOk(t.entries[k - 1], k - 1, n); }
  }

  // ---- Freed entries ------------------------------------------------------------------------------

  /** The gap that an unused slot belongs to */
  lemma {:induction false} HeadBefore<O>(t: Table<O>, i: nat) returns (e: nat)
    requires i < |t.used| && !t.used[i]
    ensures e <= i && Head(t, e) && forall k :: e <= k <= i ==> !t.used[k]
  {
    if i == 0 || t.used[i - 1] {
      e := i;
    } else {
      e := HeadBefore(t, i - 1);
    }
  }

  /** Where an entry was freed, one of the same size can be placed again. */
  lemma FreedFits<O>(t: Table<O>, n: int, i: nat)
    requires Layout(t, n) && t.Used(i)
    ensures !NoFit(Clear(t, i), n, t.entries[i].size)
  {
    var t', size := Clear(t, i), t.entries[i].size;
    var e := HeadBefore(t', i);
    assert EntryOk(t.entries[i], i, n);
    assert Tail(t', e) <= t.entries[i].base by {
      if e > 0 { assert t.used[e - 1]; }
    }
    forall b | e < b < |t'.used| && t'.used[b] ensures t'.entries[b].base >= Tail(t', e) + size {
      assert i < b && t.used[b];
    }
  }

  // ---- The pool for large allocations -------------------------------------------------------------

  /** Nothing up to this size is allocated from the large pool. */
  const LARGE := 96 * 1024

  /** Large entries start at least 96 KiB per slot into the pool. */
  ghost predicate Spaced<O>(t: Table<O>) {
    && |t.used| == |t.entries|
    && forall i {:trigger t.used[i]} ::
      0 <= i < |t.used| && t.used[i] ==> t.entries[i].size > LARGE && LARGE * i <= t.entries[i].base
  }

  lemma SpacedAlloc<O>(t: Table<O>, n: int, m1: seq<Entry<O>>, e: nat, x: Entry<O>, m2: seq<Entry<O>>)
    requires Spaced(t) && FirstFitAt(Grown(t, m1), n, e, x.base, x.size) && x.size > LARGE
    ensures Spaced(AfterAlloc(t, m1, e, x, m2))
  {
    var g := Grown(t, m1);
    assert Spaced(g);
    assert e > 0 ==> g.used[e - 1];
  }

  lemma SpacedClear<O>(t: Table<O>, i: nat)
    requires Spaced(t) && i < |t.used|
    ensures Spaced(Clear(t, i))
  {
    forall k | 0 <= k < |t.used| && Clear(t, i).used[k] ensures t.used[k] {
    }
  }

  /** Defragmenting keeps the spacing, whatever it was before. */
  lemma {:induction false} SpacedPrefix<O>(t: Table<O>, k: nat, i: nat)
    requires Prefix(t, k) && i <= k
    requires forall j {:trigger t.used[j]} :: 0 <= j < |t.used| && t.used[j] ==> t.entries[j].size > LARGE
    ensures LARGE * i <= Tail(t, i)
  {
    if i > 0 {
      SpacedPrefix(t, k, i - 1);
      assert t.used[i - 1];
    }
  }

  lemma SpacedPacked<O>(t: Table<O>, k: nat)
    requires Packed(t, k)
    requires forall j {:trigger t.used[j]} :: 0 <= j < |t.used| && t.used[j] ==> t.entries[j].size > LARGE
    ensures Spaced(t)
  {
    forall i | 0 <= i < |t.used| && t.used[i] ensures LARGE * i <= t.entries[i].base {
      assert i < k;
      SpacedPrefix(t, k, i);
    }
  }

  /** A pool of 24 MiB never has more than 256 large entries. */
  lemma LargeSlots<O>(t: Table<O>, n: int, i: nat)
    requires Layout(t, n) && Spaced(t) && t.Used(i) && n <= 0x180_0000
    ensures i < 0x100
  {
    assert t.used[i] && EntryOk(t.entries[i], i, n);
  }
}
