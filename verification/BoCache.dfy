/** The recycle cache of buffer objects: src/tegradrm/tegra_bo_cache.c, with `drm_tegra_bo_new`,
    `drm_tegra_bo_unref` and `lookup_bo` of src/tegradrm/tegra.c. */
module BoCache {
  import opened Lists

  const PAGE := 4096
  const TABLE := 14 * 4 * 2  // the slots of `cache_bucket`
  const CLASS := 55  // the buckets of one initialisation
  const CACHE_MAX := 64 * 1024 * 1024
  const LARGEST := 112 * 1024 * 1024
  const TWO32 := 0x1_0000_0000

  // ---- The bucket sizes ---------------------------------------------------------------------------

  /** A quarter of the power of two that round `j` of the loop adds sizes for */
  function Quarter(j: nat): (q: nat)
    ensures q >= PAGE
  {
    if j == 0 then PAGE else 2 * Quarter(j - 1)
  }

  /** The sizes after `j` rounds of the loop in `drm_tegra_bo_cache_init` */
  function Sizes(j: nat): (r: seq<nat>)
    ensures |r| == 3 + 4 * j
  {
    if j == 0 then [PAGE, PAGE * 2, PAGE * 3] else
      var q := Quarter(j - 1);
      Sizes(j - 1) + [4 * q, 5 * q, 6 * q, 7 * q]
  }

  /** No gap between neighbours is wide: a page-aligned request that misses one size by a page wastes less
      than a quarter of itself on the next. */
  ghost predicate Fine(ss: seq<nat>) {
    && (forall i {:trigger ss[i]} :: 0 <= i < |ss| ==> ss[i] > 0 && ss[i] % PAGE == 0)
    && (forall i, j {:trigger ss[i], ss[j]} :: 0 <= i < j < |ss| ==> ss[i] < ss[j])
    && (forall i {:trigger ss[i]} :: 0 < i < |ss| ==> 4 * (ss[i] - ss[i - 1] - PAGE) < ss[i - 1] + PAGE)
  }

  lemma FineMore(ss: seq<nat>, n: nat)
    requires Fine(ss) && |ss| > 0 && n % PAGE == 0 && ss[|ss| - 1] < n
    requires 4 * (n - ss[|ss| - 1] - PAGE) < ss[|ss| - 1] + PAGE
    ensures Fine(ss + [n])
  {
    var l := ss + [n];
    forall i | 0 <= i < |l| ensures l[i] > 0 && l[i] % PAGE == 0 {
      assert i < |ss| ==> l[i] == ss[i];
    }
    forall i | 0 < i < |l| ensures 4 * (l[i] - l[i - 1] - PAGE) < l[i - 1] + PAGE {
      assert l[i - 1] == ss[i - 1] && (i < |ss| ==> l[i] == ss[i]);
    }
    forall i, j | 0 <= i < j < |l| ensures l[i] < l[j] {
      assert l[i] == ss[i] && (j < |ss| ==> l[j] == ss[j]);
    }
  }

  lemma PageSum(x: int, y: int)
    requires x % PAGE == 0 && y % PAGE == 0
    ensures (x + y) % PAGE == 0
  {
    assert x == PAGE * (x / PAGE) && y == PAGE * (y / PAGE);
    assert x + y == PAGE * (x / PAGE + y / PAGE);
  }

  lemma Multiples(q: nat)
    requires q % PAGE == 0
    ensures 4 * q % PAGE == 0 && 5 * q % PAGE == 0 && 6 * q % PAGE == 0 && 7 * q % PAGE == 0
  {
    PageSum(q, q);
    PageSum(2 * q, 2 * q);
    PageSum(4 * q, q);
    PageSum(5 * q, q);
    PageSum(6 * q, q);
  }

  lemma FineGroup(ss: seq<nat>, q: nat)
    requires Fine(ss) && |ss| > 0 && q >= PAGE && q % PAGE == 0
    requires ss[|ss| - 1] < 4 * q && 4 * (4 * q - ss[|ss| - 1] - PAGE) < ss[|ss| - 1] + PAGE
    ensures Fine(ss + [4 * q, 5 * q, 6 * q, 7 * q])
  {
    hide Fine;
    Multiples(q);
    FineMore(ss, 4 * q);
    var s1 := ss + [4 * q];
    FineMore(s1, 5 * q);
    var s2 := s1 + [5 * q];
    FineMore(s2, 6 * q);
    var s3 := s2 + [6 * q];
    FineMore(s3, 7 * q);
    assert ss + [4 * q, 5 * q, 6 * q, 7 * q] == s3 + [7 * q];
  }

  lemma {:induction false} QuarterPages(j: nat)
    ensures Quarter(j) % PAGE == 0
  {
    if j > 0 {
      QuarterPages(j - 1);
      PageSum(Quarter(j - 1), Quarter(j - 1));
    }
  }

  lemma SizesEnds(j: nat)
    ensures Sizes(j)[0] == PAGE
    ensures Sizes(j)[|Sizes(j)| - 1] == if j == 0 then PAGE * 3 else 7 * Quarter(j - 1)
  {
    if j > 0 { SizesEnds(j - 1); }
  }

  lemma FineBase()
    ensures Fine(Sizes(0))
  {
  }

  lemma {:induction false} SizesFine(j: nat)
    ensures Fine(Sizes(j))
  {
    hide Fine;
    if j == 0 {
      FineBase();
    } else {
      SizesFine(j - 1);
      SizesEnds(j - 1);
      QuarterPages(j - 1);
      FineGroup(Sizes(j - 1), Quarter(j - 1));
    }
  }

  lemma PageGap(x: int, y: int)
    requires x % PAGE == 0 && y % PAGE == 0 && x < y
    ensures x + PAGE <= y
  {
  }

  /** Rounding to the next size wastes less than a quarter of a page-aligned request. */
  lemma Waste(ss: seq<nat>, i: nat, s: nat)
    requires Fine(ss) && i < |ss| && ss[0] == PAGE && 0 < s <= ss[i] && s % PAGE == 0 && (i > 0 ==> ss[i - 1] < s)
    ensures 4 * (ss[i] - s) < s
  {
    if i > 0 { PageGap(ss[i - 1], s); }
  }

  lemma {:induction false} QuarterGrows(j: nat, k: nat)
    requires j < k
    ensures 2 * Quarter(j) <= Quarter(k)
  {
    if j < k - 1 { QuarterGrows(j, k - 1); }
  }

  /** The loop adds thirteen groups. */
  lemma Rounds(j: nat)
    ensures 4 * Quarter(j) <= CACHE_MAX <==> j < 13
    ensures Quarter(12) == 16 * 1024 * 1024
  {
    assert Quarter(3) == 8 * PAGE && Quarter(6) == 8 * Quarter(3);
    assert Quarter(9) == 8 * Quarter(6) && Quarter(12) == 8 * Quarter(9);
    if j < 12 { QuarterGrows(j, 12); }
    if j > 12 { QuarterGrows(12, j); }
  }

  /** The sizes of one initialisation: three, and the groups of every power of two up to CACHE_MAX */
  function AllSizes(): (r: seq<nat>)
    ensures |r| == CLASS
  {
    Sizes((CLASS - 3) / 4)
  }

  lemma SizesFacts(ss: seq<nat>)
    requires ss == AllSizes()
    ensures |ss| == CLASS && Fine(ss) && ss[0] == PAGE && ss[CLASS - 1] == LARGEST
    ensures forall i {:trigger ss[i]} :: 0 <= i < CLASS ==> ss[i] <= LARGEST
  {
    hide Sizes, Fine;
    SizesFine(13);
    SizesEnds(13);
    Rounds(12);
    forall i | 0 <= i < CLASS ensures ss[i] <= ss[CLASS - 1] {
      Sorted(ss, i, CLASS - 1);
    }
  }

  // ---- The cache ----------------------------------------------------------------------------------

  /** `struct drm_tegra_bo` */
  class Bo {
    const size: nat
    const sparse: bool  // DRM_TEGRA_GEM_CREATE_SPARSE
    const reuse: bool
    var ref: nat
    var freeTime: int
    var freed: bool

    constructor (size: nat, sparse: bool, reuse: bool)
      ensures this.size == size && this.sparse == sparse && this.reuse == reuse && ref == 1 && !freed
    {
      this.size, this.sparse, this.reuse, ref, freeTime, freed := size, sparse, reuse, 1, 0, false;
    }
  }

  /** `struct drm_tegra_bo_bucket` */
  class Bucket {
    const size: nat
    const sparse: bool
    var list: seq<Bo>
    var numEntries: int

    constructor (size: nat, sparse: bool)
      ensures this.size == size && this.sparse == sparse && list == [] && numEntries == 0
    {
      this.size, this.sparse, list, numEntries := size, sparse, [], 0;
    }
  }

  /** `struct drm_tegra`, as far as the cache goes */
  class Drm {
    const grate: bool  // a kernel that knows sparse buffers
    var buckets: seq<Bucket>
    var time: int
    ghost var known: set<Bo>

    constructor (grate: bool)
      ensures buckets == [] && known == {} && time == 0 && this.grate == grate
    {
      this.grate, buckets, time, known := grate, [], 0, {};
    }

    /** What a buffer in a bucket is like */
    ghost predicate Fits(bo: Bo, b: Bucket)
      reads bo
    {
      bo.size == b.size && (grate && bo.sparse) == b.sparse && bo.ref == 0 && bo.reuse && !bo.freed
    }

    ghost predicate BucketOk(b: Bucket)
      reads `known, b, known
    {
      && b.numEntries == |b.list| && Distinct(b.list)
      && forall bo {:trigger bo in b.list} :: bo in b.list ==> bo in known && Fits(bo, b)
    }

    /** Two initialisations, contiguous buckets before sparse ones */
    ghost predicate TableOk()
      reads `buckets
    {
      && |buckets| == 2 * CLASS && Distinct(buckets)
      && (forall i {:trigger buckets[i]} :: 0 <= i < CLASS ==> buckets[i].size == AllSizes()[i] && !buckets[i].sparse)
      && (forall i {:trigger buckets[i]} :: CLASS <= i < 2 * CLASS ==>
            buckets[i].size == AllSizes()[i - CLASS] && buckets[i].sparse)
    }

    /** A buffer that may be recycled has the size of a bucket, or is too large for any. */
    ghost predicate KnownOk()
      reads `known
    {
      forall bo {:trigger bo in known} :: bo in known && bo.reuse ==> bo.size in AllSizes() || bo.size > LARGEST
    }

    ghost predicate CacheOk()
      reads `buckets, `known, buckets, known
    {
      && TableOk() && KnownOk()
      && forall i {:trigger buckets[i]} :: 0 <= i < |buckets| ==> BucketOk(buckets[i])
    }

    /** Every buffer but `x` is in use, or parked, or freed. */
    ghost predicate SortedBut(x: Bo?)
      reads `buckets, `known, buckets, known
    {
      forall bo {:trigger bo in known} :: bo in known && bo != x ==>
        (bo.freed ==> bo.ref == 0) && (bo.ref == 0 && !bo.freed ==> Parked(this, bo))
    }

    /** What is parked is neither in use nor freed, by `CacheOk`; so every buffer is exactly one of the three. */
    ghost predicate Valid()
      reads `buckets, `known, buckets, known
    {
      CacheOk() && SortedBut(null)
    }
  }

  /** The buckets that were not there before are new. */
  twostate predicate MadeSince(d: Drm, bs: seq<Bucket>)
    reads d`buckets
  {
    forall b {:trigger b in d.buckets} :: b in d.buckets ==> b in bs || fresh(b)
  }

  /** `add_bucket`: the table never overflows. */
  method AddBucket(d: Drm, size: nat, sparse: bool)
    requires |d.buckets| < TABLE && Distinct(d.buckets)
    modifies d`buckets
    ensures |d.buckets| == old(|d.buckets|) + 1 && d.buckets[..old(|d.buckets|)] == old(d.buckets)
    ensures Distinct(d.buckets)
    ensures var b := d.buckets[old(|d.buckets|)];
            fresh(b) && b.size == size && b.sparse == sparse && b.list == [] && b.numEntries == 0
    ensures MadeSince(d, old(d.buckets))
  {
    var b := new Bucket(size, sparse);
    d.buckets := d.buckets + [b];
  }

  /** The buckets from slot `n` on are empty, of one class, and of these sizes. */
  ghost predicate Added(bs: seq<Bucket>, n: nat, ss: seq<nat>, sparse: bool)
    reads bs
  {
    && |bs| == n + |ss| && Distinct(bs)
    && forall i {:trigger bs[i]} :: n <= i < |bs| ==>
         bs[i].size == ss[i - n] && bs[i].sparse == sparse && bs[i].list == [] && bs[i].numEntries == 0
  }

  method AddOne(d: Drm, size: nat, sparse: bool, ghost n: nat, ghost ss: seq<nat>)
    requires |d.buckets| < TABLE && Added(d.buckets, n, ss, sparse)
    modifies d`buckets
    ensures Added(d.buckets, n, ss + [size], sparse)
    ensures n <= |old(d.buckets)| <= |d.buckets| && d.buckets[..n] == old(d.buckets)[..n]
    ensures MadeSince(d, old(d.buckets))
  {
    AddBucket(d, size, sparse);
    ghost var bs := d.buckets;
    assert forall i {:trigger bs[i]} :: 0 <= i < |bs| - 1 ==> bs[i] == bs[..|bs| - 1][i];
  }

  /** The first three sizes */
  method AddFirst(d: Drm, sparse: bool)
    requires Distinct(d.buckets) && |d.buckets| + CLASS <= TABLE
    modifies d`buckets
    ensures Added(d.buckets, old(|d.buckets|), Sizes(0), sparse)
    ensures old(|d.buckets|) <= |d.buckets| && d.buckets[..old(|d.buckets|)] == old(d.buckets)
    ensures MadeSince(d, old(d.buckets))
  {
    hide Added, Lists.Distinct;
    ghost var n := |d.buckets|;
    AddedNone(d.buckets, sparse);
    AddOne(d, 4096, sparse, n, []);
    AddedLength(d.buckets, n, [] + [4096], sparse);
    AddOne(d, 4096 * 2, sparse, n, [] + [4096]);
    AddedLength(d.buckets, n, [] + [4096] + [4096 * 2], sparse);
    AddOne(d, 4096 * 3, sparse, n, [] + [4096] + [4096 * 2]);
    assert [] + [4096] + [4096 * 2] + [4096 * 3] == Sizes(0);
  }

  /** `drm_tegra_bo_cache_init`, never called for the coarse sizes */
  method CacheInit(d: Drm, sparse: bool)
    requires Distinct(d.buckets) && |d.buckets| + CLASS <= TABLE
    modifies d`buckets
    ensures Added(d.buckets, old(|d.buckets|), AllSizes(), sparse) && d.buckets[..old(|d.buckets|)] == old(d.buckets)
    ensures MadeSince(d, old(d.buckets))
  {
    hide Added, Lists.Distinct, Fine;
    ghost var n := |d.buckets|;
    AddFirst(d, sparse);
    var size := 4 * 4096;
    ghost var j := 0;
    while size <= CACHE_MAX
      invariant size == 4 * Quarter(j) && j <= 13 && Added(d.buckets, n, Sizes(j), sparse)
      invariant n <= |d.buckets| && d.buckets[..n] == old(d.buckets) && MadeSince(d, old(d.buckets))
      decreases 13 - j
    {
      Rounds(j);
      AddGroup(d, size, sparse, n, Sizes(j), Quarter(j));
      size := size * 2;
      j := j + 1;
    }
    Rounds(j);
  }

  lemma AddedNone(bs: seq<Bucket>, sparse: bool)
    requires Distinct(bs)
    ensures Added(bs, |bs|, [], sparse)
  {
  }

  lemma AddedLength(bs: seq<Bucket>, n: nat, ss: seq<nat>, sparse: bool)
    requires Added(bs, n, ss, sparse)
    ensures |bs| == n + |ss|
  {
  }

  method AddGroup(d: Drm, size: nat, sparse: bool, ghost n: nat, ghost ss: seq<nat>, ghost q: nat)
    requires Added(d.buckets, n, ss, sparse) && size == 4 * q && n + |ss| + 4 <= TABLE
    modifies d`buckets
    ensures Added(d.buckets, n, ss + [4 * q, 5 * q, 6 * q, 7 * q], sparse)
    ensures n <= |old(d.buckets)| <= |d.buckets| && d.buckets[..n] == old(d.buckets)[..n]
    ensures MadeSince(d, old(d.buckets))
  {
    hide Added;
    AddedLength(d.buckets, n, ss, sparse);
    AddOne(d, size, sparse, n, ss);
    ghost var s1 := ss + [size];
    AddedLength(d.buckets, n, s1, sparse);
    AddOne(d, size + size * 1 / 4, sparse, n, s1);
    ghost var s2 := s1 + [size + size * 1 / 4];
    AddedLength(d.buckets, n, s2, sparse);
    AddOne(d, size + size * 2 / 4, sparse, n, s2);
    ghost var s3 := s2 + [size + size * 2 / 4];
    AddedLength(d.buckets, n, s3, sparse);
    AddOne(d, size + size * 3 / 4, sparse, n, s3);
    assert s3 + [size + size * 3 / 4] == ss + [4 * q, 5 * q, 6 * q, 7 * q];
  }

  /** `drm_tegra_wrap`: both initialisations fit the table. */
  method OpenDrm(grate: bool) returns (d: Drm)
    ensures fresh(d) && fresh(d.buckets) && d.Valid() && d.known == {} && |d.buckets| == 110 <= TABLE
  {
    hide AllSizes, Fine;
    d := new Drm(grate);
    CacheInit(d, false);
    ghost var first := d.buckets;
    CacheInit(d, true);
    assert forall i {:trigger d.buckets[i]} :: 0 <= i < CLASS ==> d.buckets[i] == d.buckets[..CLASS][i] == first[i];
    assert forall b {:trigger b in d.buckets} :: b in d.buckets ==> fresh(b);
    assert forall i {:trigger d.buckets[i]} :: 0 <= i < |d.buckets| ==> d.buckets[i] in d.buckets;
  }

  // ---- Finding a bucket ---------------------------------------------------------------------------

  /** The least size in the table that holds `size` */
  ghost predicate Least(ss: seq<nat>, i: nat, size: nat) {
    i < |ss| && size <= ss[i] && (i > 0 ==> ss[i - 1] < size)
  }

  lemma Sorted(ss: seq<nat>, i: nat, j: nat)
    requires Fine(ss) && i <= j < |ss|
    ensures ss[i] <= ss[j]
  {
  }

  lemma StrictlySorted(ss: seq<nat>, i: nat, j: nat)
    requires Fine(ss) && i < j < |ss|
    ensures ss[i] < ss[j]
  {
  }

  /** A buffer that has the size of a bucket belongs into that bucket. */
  lemma ExactSize(ss: seq<nat>, i: nat, size: nat)
    requires Fine(ss) && Least(ss, i, size) && size in ss
    ensures ss[i] == size
  {
    hide Fine;
    var m: nat :| m < |ss| && ss[m] == size;
    if m < i {
      var p: nat := i - 1;
      Sorted(ss, m, p);
    }
    if i < m { StrictlySorted(ss, i, m); }
  }

  /** Where a bucket stands in its class */
  lemma ClassIndex(d: Drm, i: nat)
    requires d.TableOk() && i < |d.buckets|
    ensures i % CLASS == (if i < CLASS then i else i - CLASS) < CLASS && d.buckets[i].size == AllSizes()[i % CLASS]
    ensures d.buckets[i].sparse <==> i >= CLASS
  {
    if i >= CLASS { assert i == CLASS + (i - CLASS); }
  }

  /** `drm_tegra_get_bucket`: the smallest bucket of the right class, for every size up to the largest. A
      sparse request that fits at all never falls back to a contiguous bucket. */
  method GetBucket(d: Drm, size: nat, sparseFlag: bool) returns (k: int)
    requires d.TableOk()
    ensures k == -1 <==> size > LARGEST
    ensures k != -1 ==> 0 <= k < |d.buckets| && d.buckets[k].sparse == (d.grate && sparseFlag)
    ensures k != -1 ==> Least(AllSizes(), k % CLASS, size) && d.buckets[k].size == AllSizes()[k % CLASS]
  {
    hide Fine, Sizes, AllSizes;
    SizesFacts(AllSizes());
    var sparse := d.grate && sparseFlag;
    var i := 0;
    if sparse {
      while i < |d.buckets|
        invariant i <= |d.buckets|
        invariant forall m {:trigger d.buckets[m]} :: 0 <= m < i && d.buckets[m].sparse ==> d.buckets[m].size < size
      {
        if d.buckets[i].size >= size && d.buckets[i].sparse {
          ClassIndex(d, i);
          if i > CLASS { ClassIndex(d, i - 1); }
          return i;
        }
        i := i + 1;
      }
      ClassIndex(d, 2 * CLASS - 1);
    }
    i := 0;
    while i < |d.buckets|
      invariant i <= |d.buckets|
      invariant forall m {:trigger d.buckets[m]} :: 0 <= m < i && !d.buckets[m].sparse ==> d.buckets[m].size < size
    {
      if d.buckets[i].size >= size && !d.buckets[i].sparse {
        ClassIndex(d, i);
        if i > 0 { ClassIndex(d, i - 1); }
        return i;
      }
      i := i + 1;
    }
    ClassIndex(d, CLASS - 1);
    k := -1;
  }

  // ---- Parking and recycling ----------------------------------------------------------------------

  ghost predicate Parked(d: Drm, bo: Bo)
    reads d`buckets, d.buckets
  {
    exists i {:trigger d.buckets[i]} :: 0 <= i < |d.buckets| && bo in d.buckets[i].list
  }

  /** Every size and class has one bucket. */
  lemma SameBucket(d: Drm, i: nat, j: nat)
    requires d.TableOk() && i < |d.buckets| && j < |d.buckets|
    requires d.buckets[i].size == d.buckets[j].size && d.buckets[i].sparse == d.buckets[j].sparse
    ensures i == j
  {
    hide Fine, AllSizes;
    SizesFacts(AllSizes());
    ClassIndex(d, i);
    ClassIndex(d, j);
    if i % CLASS < j % CLASS { StrictlySorted(AllSizes(), i % CLASS, j % CLASS); }
    if j % CLASS < i % CLASS { StrictlySorted(AllSizes(), j % CLASS, i % CLASS); }
  }

  /** A buffer can be in one bucket only. */
  lemma OneHome(d: Drm, bo: Bo, i: nat, j: nat)
    requires d.TableOk() && i < |d.buckets| && j < |d.buckets| && d.Fits(bo, d.buckets[i]) && d.Fits(bo, d.buckets[j])
    ensures i == j
  {
    SameBucket(d, i, j);
  }

  /** `drm_tegra_get_bucket` names the bucket that holds a parked buffer, and only a buffer too large for
      every bucket has none. */
  method Home(d: Drm, bo: Bo) returns (k: int)
    requires d.CacheOk() && bo in d.known && bo.reuse
    ensures k == -1 <==> bo.size > LARGEST
    ensures k != -1 ==>
              0 <= k < |d.buckets| && bo.size == d.buckets[k].size && (d.grate && bo.sparse) == d.buckets[k].sparse
    ensures forall i {:trigger d.buckets[i]} :: 0 <= i < |d.buckets| && bo in d.buckets[i].list ==> i == k
  {
    hide Fine, AllSizes;
    k := GetBucket(d, bo.size, bo.sparse);
    SizesFacts(AllSizes());
    if k != -1 {
      ExactSize(AllSizes(), k % CLASS, bo.size);
    }
    forall i | 0 <= i < |d.buckets| && bo in d.buckets[i].list ensures i == k {
      ClassIndex(d, i);
      assert d.BucketOk(d.buckets[i]);
      assert d.Fits(bo, d.buckets[i]);
      if k != -1 {
        SameBucket(d, i, k);
      }
    }
  }

  ghost function ListsOf(d: Drm): (r: seq<seq<Bo>>)
    reads d, d.buckets
    ensures |r| == |d.buckets| && forall i {:trigger r[i]} :: 0 <= i < |r| ==> r[i] == d.buckets[i].list
  {
    seq(|d.buckets|, i requires 0 <= i < |d.buckets| reads d, d.buckets => d.buckets[i].list)
  }

  /** A list when its head has been `taken` */
  ghost function Behind(l: seq<Bo>, taken: bool): (r: seq<Bo>) {
    if taken && l != [] then l[1..] else l
  }

  /** What a request for `size` bytes has taken out of the cache: the head of the one bucket of this size and
      class if it was `idle`, and nothing else. */
  ghost predicate Drawn(d: Drm, was: seq<seq<Bo>>, bo: Bo?, size: nat, sparse: bool, idle: bool)
    reads d`buckets, d.buckets
  {
    && |was| == |d.buckets| && (size > LARGEST ==> bo == null)
    && forall i {:trigger d.buckets[i]} :: 0 <= i < |d.buckets| ==>
         var b := d.buckets[i];
         if b.size != size || b.sparse != (d.grate && sparse) then b.list == was[i]
         else if idle && was[i] != [] then bo == was[i][0] && b.list == was[i][1..]
         else bo == null && b.list == was[i]
  }

  /** `find_in_bucket`: the head of the bucket's list goes if the hardware says that it is `idle`. */
  method FindInBucket(d: Drm, b: Bucket, idle: bool) returns (bo: Bo?)
    requires d.BucketOk(b)
    modifies b`list, b`numEntries
    ensures d.BucketOk(b)
    ensures bo != null <==> idle && old(b.list) != []
    ensures bo == null ==> b.list == old(b.list) && b.numEntries == old(b.numEntries)
    ensures bo != null ==> old(b.list) == [bo] + b.list && bo in d.known && d.Fits(bo, b) && bo !in b.list
  {
    bo := null;
    if |b.list| > 0 {
      if idle {
        bo := b.list[0];
        assert bo in b.list;
        TailOk(d, b);
        b.list := b.list[1..];
        b.numEntries := b.numEntries - 1;
      }
    }
  }

  lemma TailOk(d: Drm, b: Bucket)
    requires d.BucketOk(b) && b.list != []
    ensures Distinct(b.list[1..]) && b.list == [b.list[0]] + b.list[1..] && b.list[0] !in b.list[1..]
    ensures forall bo {:trigger bo in b.list[1..]} :: bo in b.list[1..] ==> bo in b.list
  {
  }

  /** The reference count of a buffer outside the cache is its users' business. */
  method SetRef(d: Drm, bo: Bo, n: nat)
    requires d.CacheOk() && !Parked(d, bo)
    modifies bo`ref
    ensures d.CacheOk() && bo.ref == n
  {
    bo.ref := n;
    forall i | 0 <= i < |d.buckets| ensures d.BucketOk(d.buckets[i]) {
      assert old(d.BucketOk(d.buckets[i])) && bo !in d.buckets[i].list;
    }
  }

  /** One buffer leaves the bucket at `k`. */
  method Take(d: Drm, k: nat, idle: bool) returns (bo: Bo?)
    requires d.CacheOk() && k < |d.buckets|
    modifies d.buckets
    ensures d.CacheOk() && ListsOf(d) == old(ListsOf(d))[k := Behind(old(d.buckets[k].list), bo != null)]
    ensures if idle && old(d.buckets[k].list) != [] then bo == old(d.buckets[k].list[0]) else bo == null
    ensures bo != null ==> bo in d.known && d.Fits(bo, d.buckets[k]) && old(Parked(d, bo)) && !Parked(d, bo)
    ensures forall x {:trigger x in d.known} :: x in d.known && x != bo ==> Parked(d, x) == old(Parked(d, x))
  {
    hide Fine, AllSizes;
    bo := FindInBucket(d, d.buckets[k], idle);
    forall x | x in d.known && x != bo ensures Parked(d, x) == old(Parked(d, x)) {
      if i :| 0 <= i < |d.buckets| && x in old(d.buckets[i].list) { assert x in d.buckets[i].list; }
    }
    forall i | 0 <= i < |d.buckets| ensures d.BucketOk(d.buckets[i]) {
      if i != k { assert old(d.BucketOk(d.buckets[i])); }
    }
    if bo != null {
      forall i | 0 <= i < |d.buckets| ensures bo !in d.buckets[i].list {
        if i != k && bo in d.buckets[i].list {
          assert d.BucketOk(d.buckets[i]);
          OneHome(d, bo, i, k);
        }
      }
    }
  }

  /** `align` on 32 bits */
  function Align32(size: nat): (r: nat)
    ensures r % PAGE == 0
  {
    (size + PAGE - 1) % TWO32 / PAGE * PAGE
  }

  /** Rounding up to pages reaches every size except those within the last page below 4 GiB, where it
      wraps around to nothing. */
  lemma AlignCovers(size: nat)
    requires 0 < size < TWO32
    ensures size <= Align32(size) <==> size <= TWO32 - PAGE
    ensures size <= TWO32 - PAGE ==> Align32(size) < size + PAGE
    ensures size > TWO32 - PAGE ==> Align32(size) == 0
  {
    if size > TWO32 - PAGE {
      assert (size + PAGE - 1) % TWO32 == size + PAGE - 1 - TWO32;
    }
  }

  /** A request that the driver's own arithmetic turns into nothing: it gets a single page. */
  lemma WrapsAround()
    ensures Align32(0xFFFF_F001) == 0 && Least(AllSizes(), 0, Align32(0xFFFF_F001))
    ensures AllSizes()[0] == PAGE < 0xFFFF_F001
  {
    AlignCovers(0xFFFF_F001);
    SizesFacts(AllSizes());
  }

  /** What a request is rounded to */
  ghost predicate Rounded(size: nat, r: nat) {
    var a := Align32(size);
    if a > LARGEST then r == a else exists i :: 0 <= i && Least(AllSizes(), i, a) && r == AllSizes()[i]
  }

  /** Rounding covers the request, unless the alignment wrapped, and wastes less than a quarter of it. */
  lemma RoundedWell(size: nat, r: nat)
    requires 0 < size < TWO32 && Rounded(size, r)
    ensures size <= r <==> size <= TWO32 - PAGE
    ensures 0 < Align32(size) <= LARGEST ==> 4 * (r - Align32(size)) < Align32(size)
    ensures r in AllSizes() || r > LARGEST
  {
    hide Fine, AllSizes, Align32;
    AlignCovers(size);
    SizesFacts(AllSizes());
    var a := Align32(size);
    if a <= LARGEST {
      var i :| 0 <= i && Least(AllSizes(), i, a) && r == AllSizes()[i];
      if a > 0 {
        Waste(AllSizes(), i, a);
      } else {
        if i > 0 { Sorted(AllSizes(), 0, i - 1); }
      }
    }
  }

  /** What happens to one buffer happens to no other. */
  twostate predicate OthersAsBefore(d: Drm, new bo: Bo?)
    reads d`known, d`buckets, d.buckets, d.known
  {
    forall x {:trigger x in old(d.known)} :: x in old(d.known) && x != bo ==>
      x in d.known && x.ref == old(x.ref) && x.freed == old(x.freed) && Parked(d, x) == old(Parked(d, x))
  }

  /** A buffer from the bucket at `k` gets its first reference. */
  method Recycle(d: Drm, k: nat, idle: bool) returns (bo: Bo?)
    requires d.Valid() && k < |d.buckets|
    modifies d.buckets, d.known`ref
    ensures d.Valid() && OthersAsBefore(d, bo)
    ensures ListsOf(d) == old(ListsOf(d))[k := Behind(old(d.buckets[k].list), bo != null)]
    ensures if idle && old(d.buckets[k].list) != [] then bo == old(d.buckets[k].list[0]) else bo == null
    ensures bo != null ==>
              && bo in d.known && bo.size == d.buckets[k].size && (d.grate && bo.sparse) == d.buckets[k].sparse
              && old(Parked(d, bo)) && bo.ref == 1 && !bo.freed && bo.reuse && !Parked(d, bo)
  {
    hide AllSizes, Drm.Fits, Drm.CacheOk, Parked;
    bo := Take(d, k, idle);
    if bo != null {
      FitsMeans(d, bo, d.buckets[k]);
      SetRef(d, bo, 1);
    }
  }

  /** `drm_tegra_bo_cache_alloc`: the rounded size, and the buffer of exactly that size that was parked first,
      if it is idle. */
  method CacheAlloc(d: Drm, size: nat, sparse: bool, idle: bool) returns (bo: Bo?, rounded: nat)
    requires d.Valid()
    modifies d.buckets, d.known`ref
    ensures Drawn(d, old(ListsOf(d)), bo, rounded, sparse, idle)
    ensures d.Valid() && d.known == old(d.known) && Rounded(size, rounded) && OthersAsBefore(d, bo)
    ensures bo != null ==>
              && bo in d.known && bo.size == rounded && (d.grate && bo.sparse) == (d.grate && sparse)
              && old(Parked(d, bo)) && bo.ref == 1 && !bo.freed && bo.reuse && !Parked(d, bo)
  {
    hide AllSizes, Align32, Drm.Fits, Drm.SortedBut, Parked, Drawn, Drm.BucketOk;
    bo, rounded := null, Align32(size);
    ghost var was := ListsOf(d);
    var k := GetBucket(d, rounded, sparse);
    if k == -1 {
      DrawnNone(d, rounded, sparse, idle);
    } else {
      rounded := d.buckets[k].size;
      bo := Recycle(d, k, idle);
      DrawnAt(d, was, k, bo, sparse, idle);
    }
  }

  lemma DrawnNone(d: Drm, size: nat, sparse: bool, idle: bool)
    requires d.TableOk() && size > LARGEST
    ensures Drawn(d, ListsOf(d), null, size, sparse, idle)
  {
    hide Fine, AllSizes;
    SizesFacts(AllSizes());
    forall i | 0 <= i < |d.buckets| ensures d.buckets[i].size <= LARGEST {
      ClassIndex(d, i);
    }
  }

  lemma DrawnAt(d: Drm, was: seq<seq<Bo>>, k: nat, bo: Bo?, sparse: bool, idle: bool)
    requires d.TableOk() && k < |d.buckets| == |was| && d.buckets[k].sparse == (d.grate && sparse)
    requires ListsOf(d) == was[k := Behind(was[k], bo != null)]
    requires if idle && was[k] != [] then bo == was[k][0] else bo == null
    ensures Drawn(d, was, bo, d.buckets[k].size, sparse, idle)
  {
    hide Fine, AllSizes;
    SizesFacts(AllSizes());
    ClassIndex(d, k);
    forall i | 0 <= i < |d.buckets|
      ensures i != k ==> d.buckets[i].size != d.buckets[k].size || d.buckets[i].sparse != d.buckets[k].sparse
      ensures d.buckets[i].list == ListsOf(d)[i]
    {
      if d.buckets[i].size == d.buckets[k].size && d.buckets[i].sparse == d.buckets[k].sparse { SameBucket(d, i, k); }
    }
  }

  lemma FitsMeans(d: Drm, bo: Bo, b: Bucket)
    requires d.Fits(bo, b)
    ensures bo.size == b.size && (d.grate && bo.sparse) == b.sparse && bo.reuse && !bo.freed
  {
  }

  /** `drm_tegra_bo_new`: the buffer that was parked first among those of exactly the rounded size and the
      same class, if it is `idle`, and otherwise a new one, if the kernel has `granted` it. Nobody held it
      before, and nobody's buffer changes. */
  method BoNew(d: Drm, size: nat, sparse: bool, idle: bool, granted: bool) returns (bo: Bo?)
    requires d.Valid() && size < TWO32
    modifies d`known, d.buckets, d.known`ref
    ensures d.Valid() && d.known == old(d.known) + (if bo == null then {} else {bo}) && (size == 0 ==> bo == null)
    ensures OthersAsBefore(d, bo) && (size == 0 ==> ListsOf(d) == old(ListsOf(d)))
    ensures granted && 0 < size ==> bo != null
    ensures bo != null ==> Drawn(d, old(ListsOf(d)), if fresh(bo) then null else bo, bo.size, sparse, idle)
    ensures bo != null && fresh(bo) ==> granted
    ensures bo == null && 0 < size ==>
              exists r :: Rounded(size, r) && Drawn(d, old(ListsOf(d)), null, r, sparse, idle)
    ensures bo != null ==>
              && (fresh(bo) || (bo in old(d.known) && old(Parked(d, bo)) && old(bo.ref) == 0))
              && bo.ref == 1 && !bo.freed && !Parked(d, bo)
              && Rounded(size, bo.size) && (d.grate && bo.sparse) == (d.grate && sparse)
              && (size <= bo.size <==> size <= TWO32 - PAGE)
              && (0 < Align32(size) <= LARGEST ==> 4 * (bo.size - Align32(size)) < Align32(size))
  {
    hide AllSizes, Align32, Rounded, Drawn;
    if size == 0 {
      return null;
    }
    var rounded;
    bo, rounded := CacheAlloc(d, size, sparse, idle);
    RoundedWell(size, rounded);
    if bo == null && granted {
      bo := new Bo(rounded, sparse, true);
      Adopt(d, bo);
    }
  }

  /** A new buffer becomes known. */
  ghost method Adopt(d: Drm, bo: Bo)
    requires d.Valid() && bo !in d.known && bo.ref > 0 && !bo.freed
    requires bo.reuse ==> bo.size in AllSizes() || bo.size > LARGEST
    modifies d`known
    ensures d.Valid() && d.known == old(d.known) + {bo} && !Parked(d, bo) && d.buckets == old(d.buckets)
  {
    hide AllSizes;
    forall i | 0 <= i < |d.buckets| ensures bo !in d.buckets[i].list {
      assert d.BucketOk(d.buckets[i]);
    }
    d.known := d.known + {bo};
    forall i | 0 <= i < |d.buckets| ensures d.BucketOk(d.buckets[i]) {
      assert old(d.BucketOk(d.buckets[i]));
    }
  }

  // ---- Cleaning up --------------------------------------------------------------------------------

  /** `bucket_free_up`: a few small buffers are always kept. */
  predicate FreeUp(b: Bucket)
    reads b
  {
    b.size > 16384 || b.size * b.numEntries > 65536
  }

  /** What a cleanup at `time` does to the list of a bucket of this size. The oldest buffers are freed, one
      after the other, if the bucket holds more than 64 KiB or its buffers are larger than 16 KiB: those that
      have been parked for more than ten seconds, and for a minute if less than five are left. It stops at the
      first one of which this is not true. At time 0 all are freed. */
  ghost predicate Cleaned(was: seq<Bo>, size: nat, now: seq<Bo>, known: set<Bo>, time: int)
    reads known`freeTime, known`freed
  {
    && (forall j {:trigger was[j]} :: 0 <= j < |was| ==> was[j] in known) && LeftOver(was, size, now, known, time)
    && forall j {:trigger was[j]} :: 0 <= j < |was| - |now| ==> was[j].freed
  }

  ghost predicate LeftOver(was: seq<Bo>, size: nat, now: seq<Bo>, known: set<Bo>, time: int)
    requires forall j {:trigger was[j]} :: 0 <= j < |was| ==> was[j] in known
    reads known`freeTime
  {
    && |now| <= |was| && now == was[|was| - |now|..]
    && (forall j {:trigger was[j]} :: 0 <= j < |was| - |now| ==>
          (time != 0 ==>
             && (size > 16 * 1024 || size * |was| > 64 * 1024)
             && time - was[j].freeTime > 10 && (time - was[j].freeTime >= 60 || |was| - j >= 5)))
    && (now != [] ==>
          var first := was[|was| - |now|];
          && time != 0
          && ((size <= 16 * 1024 && size * |was| <= 64 * 1024)
              || time - first.freeTime <= 10 || (time - first.freeTime < 60 && |now| < 5)))
  }

  /** The rule determines what is left. */
  lemma CleanedOnce(was: seq<Bo>, size: nat, a: seq<Bo>, b: seq<Bo>, known: set<Bo>, time: int)
    requires Cleaned(was, size, a, known, time) && Cleaned(was, size, b, known, time)
    ensures a == b
  {
    if a != [] { assert was[|was| - |a|] == a[0]; }
    if b != [] { assert was[|was| - |b|] == b[0]; }
  }

  lemma ListKnown(d: Drm, b: Bucket)
    requires d.BucketOk(b)
    ensures forall j {:trigger b.list[j]} :: 0 <= j < |b.list| ==> b.list[j] in d.known
  {
    forall j | 0 <= j < |b.list| ensures b.list[j] in d.known {
      assert b.list[j] in b.list;
    }
  }

  /** The cleanup of one bucket */
  method CleanBucket(d: Drm, b: Bucket, time: int)
    requires d.BucketOk(b)
    modifies b`list, b`numEntries, d.known`freed
    ensures d.BucketOk(b) && Cleaned(old(b.list), b.size, b.list, d.known, time)
    ensures forall bo {:trigger bo.freed} :: bo in d.known ==>
              (old(bo.freed) ==> bo.freed) && (bo !in old(b.list) ==> bo.freed == old(bo.freed))
  {
    ghost var l := b.list;
    ghost var n := 0;
    ListKnown(d, b);
    if time != 0 && !FreeUp(b) {
      return;
    }
    while |b.list| > 0
      invariant n <= |l| && b.list == l[n..] && d.BucketOk(b)
      invariant forall j {:trigger l[j]} :: 0 <= j < n ==>
                  && l[j] in d.known && l[j].freed
                  && (time != 0 ==>
                        time - l[j].freeTime > 10 && (time - l[j].freeTime >= 60 || |l| - j >= 5))
      invariant forall bo {:trigger bo.freed} :: bo in d.known ==>
                  (old(bo.freed) ==> bo.freed) && (bo !in l ==> bo.freed == old(bo.freed))
      decreases |b.list|
    {
      var bo := b.list[0];
      assert bo in b.list && b.numEntries == |b.list|;
      var delta := time - bo.freeTime;
      if time != 0 && delta <= 10 {
        break;
      }
      if time != 0 && delta < 60 && b.numEntries < 5 {
        break;
      }
      assert bo == l[n];
      FreeHead(d, b, bo);
      n := n + 1;
    }
  }

  /** `drm_tegra_bo_free` of the oldest buffer in a bucket */
  method FreeHead(d: Drm, b: Bucket, bo: Bo)
    requires d.BucketOk(b) && b.list != [] && bo == b.list[0] && bo in d.known
    modifies b`list, b`numEntries, bo`freed
    ensures d.BucketOk(b) && b.list == old(b.list)[1..] && bo.freed
  {
    TailOk(d, b);
    b.list := b.list[1..];
    bo.freed := true;
    b.numEntries := b.numEntries - 1;
  }

  lemma Disjoint(d: Drm, i: nat, k: nat)
    requires d.CacheOk() && i < |d.buckets| && k < |d.buckets| && i != k
    ensures forall bo {:trigger bo in d.buckets[i].list} :: bo in d.buckets[i].list ==> bo !in d.buckets[k].list
  {
    assert d.BucketOk(d.buckets[i]) && d.BucketOk(d.buckets[k]);
    forall bo | bo in d.buckets[i].list ensures bo !in d.buckets[k].list {
      if bo in d.buckets[k].list { OneHome(d, bo, i, k); }
    }
  }

  /** One bucket is cleaned, and the others do not notice. */
  method CleanAt(d: Drm, k: nat, time: int)
    requires d.CacheOk() && k < |d.buckets|
    modifies d.buckets, d.known`freed
    ensures d.CacheOk()
    ensures Cleaned(old(d.buckets[k].list), d.buckets[k].size, d.buckets[k].list, d.known, time)
    ensures forall i {:trigger d.buckets[i]} :: 0 <= i < |d.buckets| && i != k ==>
              d.buckets[i].list == old(d.buckets[i].list)
    ensures forall bo {:trigger bo.freed} :: bo in d.known ==>
              (old(bo.freed) ==> bo.freed) && (bo !in old(d.buckets[k].list) ==> bo.freed == old(bo.freed))
  {
    hide AllSizes, Fine, Cleaned;
    var b := d.buckets[k];
    forall i | 0 <= i < |d.buckets| && i != k
      ensures forall bo {:trigger bo in d.buckets[i].list} :: bo in d.buckets[i].list ==> bo !in b.list
    {
      Disjoint(d, i, k);
    }
    CleanBucket(d, b, time);
    forall i | 0 <= i < |d.buckets| ensures d.BucketOk(d.buckets[i]) {
      if i != k { assert old(d.BucketOk(d.buckets[i])); }
    }
  }

  /** The first `n` buckets have been cleaned and the others have not. */
  ghost predicate CleanedTo(d: Drm, n: nat, was: seq<seq<Bo>>, time: int)
    reads d`buckets, d`known, d.buckets, d.known
  {
    && |was| == |d.buckets| && n <= |d.buckets|
    && (forall k {:trigger d.buckets[k]} :: 0 <= k < n ==>
          Cleaned(was[k], d.buckets[k].size, d.buckets[k].list, d.known, time))
    && (forall k {:trigger d.buckets[k]} :: n <= k < |d.buckets| ==> d.buckets[k].list == was[k])
  }

  method CleanNext(d: Drm, n: nat, time: int, ghost was: seq<seq<Bo>>)
    requires d.CacheOk() && n < |d.buckets| && CleanedTo(d, n, was, time)
    modifies d.buckets, d.known`freed
    ensures d.CacheOk() && CleanedTo(d, n + 1, was, time)
    ensures forall bo {:trigger bo.freed} :: bo in d.known && bo !in was[n] ==> bo.freed == old(bo.freed)
  {
    hide Drm.CacheOk, FreeUp, LeftOver;
    CleanAt(d, n, time);
    assert forall k {:trigger d.buckets[k]} :: n < k < |d.buckets| ==> d.buckets[k].list == was[k];
    forall k | 0 <= k < n ensures Cleaned(was[k], d.buckets[k].size, d.buckets[k].list, d.known, time) {
      var l, now := was[k], d.buckets[k].list;
      assert now == old(d.buckets[k].list) && old(Cleaned(l, d.buckets[k].size, d.buckets[k].list, d.known, time));
      hide CleanedTo;
      assert LeftOver(l, d.buckets[k].size, now, d.known, time);
      forall j | 0 <= j < |l| - |now| ensures l[j] in d.known && l[j].freed {
        assert old(l[j].freed);
      }
    }
  }

  /** `drm_tegra_bo_cache_cleanup`: at most once per second, all buckets; buffers in use are not touched. */
  method Cleanup(d: Drm, time: int)
    requires d.CacheOk()
    modifies d`time, d.buckets, d.known`freed
    ensures d.CacheOk() && d.time == time && (old(d.Valid()) ==> d.Valid())
    ensures forall bo {:trigger bo in d.known} ::
              bo in d.known && old(Parked(d, bo)) ==> bo.ref == 0 && bo.freed == !Parked(d, bo)
    ensures if time == old(d.time) then ListsOf(d) == old(ListsOf(d))
            else CleanedTo(d, |d.buckets|, old(ListsOf(d)), time)
    ensures forall bo {:trigger bo.freed} ::
              bo in d.known && !old(Parked(d, bo)) ==> bo.freed == old(bo.freed) && !Parked(d, bo)
  {
    hide Drm.CacheOk, FreeUp, CleanedTo, Cleaned, Parked;
    forall bo | bo in d.known && Parked(d, bo) ensures bo.ref == 0 && !bo.freed {
      ParkedIsIdle(d, bo);
    }
    if d.time == time {
      return;
    }
    ghost var was := ListsOf(d);
    ghost var outside := set bo | bo in d.known && !Parked(d, bo);
    OutsideWas(d, was);
    var i := 0;
    CleanedStart(d, time);
    while i < |d.buckets|
      invariant i <= |d.buckets| && d.CacheOk() && d.time == old(d.time) && CleanedTo(d, i, was, time)
      invariant forall bo {:trigger bo.freed} :: bo in outside ==> bo.freed == old(bo.freed)
    {
      CleanNext(d, i, time, was);
      i := i + 1;
    }
    d.time := time;
    forall bo | bo in outside ensures !Parked(d, bo) {
      CleanedAbsent(d, was, time, bo);
    }
    forall bo | bo in d.known && old(Parked(d, bo)) ensures bo.freed == !Parked(d, bo) {
      WasParked(d, was, time, bo);
    }
  }

  ghost predicate InLists(was: seq<seq<Bo>>, bo: Bo) {
    exists k {:trigger was[k]} :: 0 <= k < |was| && bo in was[k]
  }

  lemma OutsideWas(d: Drm, was: seq<seq<Bo>>)
    requires was == ListsOf(d)
    ensures forall bo, k {:trigger bo in was[k]} :: 0 <= k < |was| && bo in was[k] ==> Parked(d, bo)
    ensures forall bo {:trigger Parked(d, bo)} :: Parked(d, bo) ==> InLists(was, bo)
  {
    forall bo | Parked(d, bo) ensures InLists(was, bo) {
      var i :| 0 <= i < |d.buckets| && bo in d.buckets[i].list;
      assert bo in was[i];
    }
  }

  /** A buffer that a bucket held is freed, or still there. */
  lemma WasParked(d: Drm, was: seq<seq<Bo>>, time: int, bo: Bo)
    requires d.CacheOk() && CleanedTo(d, |d.buckets|, was, time)
    requires InLists(was, bo)
    ensures bo.freed == !Parked(d, bo)
  {
    var k :| 0 <= k < |was| && bo in was[k];
    assert Cleaned(was[k], d.buckets[k].size, d.buckets[k].list, d.known, time);
    var j :| 0 <= j < |was[k]| && was[k][j] == bo;
    var now := d.buckets[k].list;
    if j >= |was[k]| - |now| {
      assert bo == now[j - (|was[k]| - |now|)] && bo in now;
      ParkedIsIdle(d, bo);
    } else {
      assert bo.freed;
      if Parked(d, bo) { ParkedIsIdle(d, bo); }
    }
  }

  lemma ParkedIsIdle(d: Drm, bo: Bo)
    requires d.CacheOk() && Parked(d, bo)
    ensures bo in d.known && bo.ref == 0 && !bo.freed
  {
    var i :| 0 <= i < |d.buckets| && bo in d.buckets[i].list;
    assert d.BucketOk(d.buckets[i]) && d.Fits(bo, d.buckets[i]);
  }

  lemma CleanedStart(d: Drm, time: int)
    ensures CleanedTo(d, 0, ListsOf(d), time)
  {
  }

  lemma CleanedAbsent(d: Drm, was: seq<seq<Bo>>, time: int, bo: Bo)
    requires CleanedTo(d, |d.buckets|, was, time)
    requires forall k {:trigger was[k]} :: 0 <= k < |was| ==> bo !in was[k]
    ensures !Parked(d, bo)
  {
    forall k | 0 <= k < |d.buckets| ensures bo !in d.buckets[k].list {
      assert Cleaned(was[k], d.buckets[k].size, d.buckets[k].list, d.known, time) && bo !in was[k];
    }
  }

  /** Of the other buffers, only parked ones can be freed, and none is parked. */
  twostate predicate OnlyParkedGo(d: Drm, bo: Bo)
    reads d`known, d`buckets, d.buckets, d.known
  {
    forall x {:trigger x in d.known} :: x in d.known && x in old(d.known) && x != bo && !old(Parked(d, x)) ==>
      x.freed == old(x.freed) && !Parked(d, x)
  }

  /** What the cleanup of one second leaves of the lists */
  ghost predicate LeftLists(d: Drm, was: seq<seq<Bo>>, left: seq<seq<Bo>>, time: int, last: int)
    reads d`buckets, d`known, d.known
  {
    && |was| == |left| == |d.buckets|
    && forall i {:trigger d.buckets[i]} :: 0 <= i < |d.buckets| ==>
         if time == last then left[i] == was[i] else Cleaned(was[i], d.buckets[i].size, left[i], d.known, time)
  }

  /** The buffer has gone to the end of the list of the bucket of its size and class, after the cleanup; every
      other list is what the cleanup has left. */
  ghost predicate Shelved(d: Drm, was: seq<seq<Bo>>, left: seq<seq<Bo>>, bo: Bo, time: int, last: int)
    reads d`buckets, d`known, d.buckets, d.known, bo
  {
    && LeftLists(d, was, left, time, last) && bo.freeTime == time
    && forall i {:trigger d.buckets[i]} :: 0 <= i < |d.buckets| ==>
         var b := d.buckets[i];
         b.list == if b.size == bo.size && b.sparse == (d.grate && bo.sparse) then left[i] + [bo] else left[i]
  }

  /** `drm_tegra_bo_cache_free`: the buffer goes to the end of its bucket's list, after a cleanup that has `left`
      these lists. */
  method CacheFree(d: Drm, bo: Bo, now: int) returns (parked: bool, ghost left: seq<seq<Bo>>)
    requires d.CacheOk() && d.SortedBut(bo) && bo in d.known && bo.reuse && bo.ref == 0 && !bo.freed && !Parked(d, bo)
    modifies d`time, d.buckets, d.known`freed, bo`freeTime
    ensures d.CacheOk() && d.SortedBut(bo) && OnlyParkedGo(d, bo)
    ensures parked == (bo.size <= LARGEST) == Parked(d, bo) && !bo.freed
    ensures if parked then Shelved(d, old(ListsOf(d)), left, bo, now, old(d.time)) else ListsOf(d) == old(ListsOf(d))
  {
    hide AllSizes, Drm.CacheOk, Parked, CleanedTo, Drm.BucketOk, Drm.TableOk, LeftLists, Drm.SortedBut;
    left := ListsOf(d);
    var k := Home(d, bo);
    if k != -1 {
      hide OnlyParkedGo;
      left := Park(d, k, bo, now);
      OneAppended(d, left, k, bo);
      return true, left;
    }
    parked := false;
  }

  method Park(d: Drm, k: nat, bo: Bo, now: int) returns (ghost left: seq<seq<Bo>>)
    requires d.CacheOk() && d.SortedBut(bo) && bo in d.known && bo.reuse && bo.ref == 0 && !bo.freed && !Parked(d, bo)
    requires k < |d.buckets| && bo.size == d.buckets[k].size && (d.grate && bo.sparse) == d.buckets[k].sparse
    modifies d`time, d.buckets, d.known`freed, bo`freeTime
    ensures d.CacheOk() && d.SortedBut(bo) && OnlyParkedGo(d, bo) && Parked(d, bo) && !bo.freed
    ensures LeftLists(d, old(ListsOf(d)), left, now, old(d.time)) && bo.freeTime == now && |left| == |d.buckets|
    ensures ListsOf(d) == left[k := left[k] + [bo]]
  {
    hide AllSizes, Drm.CacheOk, Parked, CleanedTo, Drm.BucketOk, Drm.TableOk, LeftLists;
    left := CleanFirst(d, bo, now);
    Append(d, k, bo);
  }

  lemma OneAppended(d: Drm, left: seq<seq<Bo>>, k: nat, bo: Bo)
    requires d.CacheOk() && k < |d.buckets| == |left| && ListsOf(d) == left[k := left[k] + [bo]]
    requires bo.size == d.buckets[k].size && (d.grate && bo.sparse) == d.buckets[k].sparse
    ensures forall i {:trigger d.buckets[i]} :: 0 <= i < |d.buckets| ==>
              var b := d.buckets[i];
              b.list == if b.size == bo.size && b.sparse == (d.grate && bo.sparse) then left[i] + [bo] else left[i]
  {
    hide AllSizes, Drm.BucketOk;
    forall i | 0 <= i < |d.buckets|
      ensures i != k ==> d.buckets[i].size != d.buckets[k].size || d.buckets[i].sparse != d.buckets[k].sparse
      ensures d.buckets[i].list == ListsOf(d)[i]
    {
      if d.buckets[i].size == d.buckets[k].size && d.buckets[i].sparse == d.buckets[k].sparse { SameBucket(d, i, k); }
    }
  }

  /** The cleanup before a buffer is parked does not reach it. */
  method CleanFirst(d: Drm, bo: Bo, now: int) returns (ghost left: seq<seq<Bo>>)
    requires d.CacheOk() && d.SortedBut(bo) && bo in d.known && !bo.freed && !Parked(d, bo)
    modifies d`time, d.buckets, d.known`freed, bo`freeTime
    ensures d.CacheOk() && d.SortedBut(bo) && OnlyParkedGo(d, bo) && !bo.freed && !Parked(d, bo)
    ensures left == ListsOf(d) && LeftLists(d, old(ListsOf(d)), left, now, old(d.time)) && bo.freeTime == now
  {
    hide AllSizes, Drm.CacheOk, Parked, CleanedTo, Drm.BucketOk, Drm.TableOk, LeftLists;
    ghost var was, last := ListsOf(d), d.time;
    Stamp(d, bo, now);
    assert ListsOf(d) == was;
    label Stamped:
    assert forall x {:trigger x in d.known} ::
      x in d.known ==> Parked(d, x) == old(Parked(d, x)) && x.freed == old(x.freed);
    Cleanup(d, now);
    forall x | x in d.known && !old(Parked(d, x)) ensures x.freed == old(x.freed) && !Parked(d, x) {
      assert !old@Stamped(Parked(d, x)) && x.freed == x.freed;
    }
    left := ListsOf(d);
    LeftAfter(d, was, now, last);
  }

  lemma LeftAfter(d: Drm, was: seq<seq<Bo>>, time: int, last: int)
    requires if time == last then ListsOf(d) == was else CleanedTo(d, |d.buckets|, was, time)
    ensures LeftLists(d, was, ListsOf(d), time, last)
  {
    hide Cleaned;
  }

  method Stamp(d: Drm, bo: Bo, now: int)
    requires d.CacheOk()
    modifies bo`freeTime
    ensures d.CacheOk() && bo.freeTime == now
  {
    bo.freeTime := now;
    forall i | 0 <= i < |d.buckets| ensures d.BucketOk(d.buckets[i]) {
      assert old(d.BucketOk(d.buckets[i]));
    }
  }

  method Append(d: Drm, k: nat, bo: Bo)
    requires d.CacheOk() && k < |d.buckets| && bo in d.known && d.Fits(bo, d.buckets[k]) && !Parked(d, bo)
    modifies d.buckets
    ensures d.CacheOk() && Parked(d, bo) && ListsOf(d) == old(ListsOf(d))[k := old(d.buckets[k].list) + [bo]]
    ensures forall x {:trigger x in d.known} :: x in d.known && x != bo ==> Parked(d, x) == old(Parked(d, x))
  {
    hide AllSizes;
    var b := d.buckets[k];
    assert d.BucketOk(b) && bo !in b.list;
    b.list := b.list + [bo];
    b.numEntries := b.numEntries + 1;
    forall i | 0 <= i < |d.buckets| ensures d.BucketOk(d.buckets[i]) {
      if i != k { assert old(d.BucketOk(d.buckets[i])); }
    }
    assert bo in d.buckets[k].list;
    forall x | x in d.known && x != bo ensures Parked(d, x) == old(Parked(d, x)) {
      if i :| 0 <= i < |d.buckets| && x in old(d.buckets[i].list) { assert x in d.buckets[i].list; }
    }
  }

  /** `drm_tegra_bo_ref` */
  method AddRef(d: Drm, bo: Bo)
    requires d.Valid() && bo in d.known && bo.ref > 0
    modifies bo`ref
    ensures d.Valid() && bo.ref == old(bo.ref) + 1 && !Parked(d, bo) && !bo.freed
  {
    hide AllSizes, Drm.CacheOk;
    InUse(d, bo);
    SetRef(d, bo, bo.ref + 1);
  }

  /** `drm_tegra_bo_unref`: the last reference parks the buffer if the cache may have it, and frees it
      otherwise. No other buffer in use is touched. */
  method Unref(d: Drm, bo: Bo, now: int) returns (ghost left: seq<seq<Bo>>)
    requires d.Valid() && bo in d.known && bo.ref > 0
    modifies d`time, d.buckets, d.known`freed, bo`ref, bo`freeTime
    ensures d.Valid() && bo.ref == old(bo.ref) - 1 && OnlyParkedGo(d, bo)
    ensures bo.ref > 0 ==> !Parked(d, bo) && !bo.freed
    ensures bo.ref == 0 ==> Parked(d, bo) == (bo.reuse && bo.size <= LARGEST) && bo.freed == !Parked(d, bo)
    ensures if Parked(d, bo) then Shelved(d, old(ListsOf(d)), left, bo, now, old(d.time))
            else ListsOf(d) == old(ListsOf(d))
  {
    hide AllSizes, Drm.CacheOk, Drm.BucketOk, Drm.TableOk, Parked, Shelved;
    left := ListsOf(d);
    InUse(d, bo);
    SetRef(d, bo, bo.ref - 1);
    assert ListsOf(d) == left;
    if bo.ref > 0 {
      return;
    }
    var parked := false;
    if bo.reuse {
      parked, left := CacheFree(d, bo, now);
    }
    if !parked {
      FreeOutside(d, bo);
    }
  }

  lemma InUse(d: Drm, bo: Bo)
    requires d.CacheOk() && bo.ref > 0
    ensures !Parked(d, bo)
  {
    forall i | 0 <= i < |d.buckets| ensures bo !in d.buckets[i].list {
      assert d.BucketOk(d.buckets[i]);
    }
  }

  method FreeOutside(d: Drm, bo: Bo)
    requires d.CacheOk() && !Parked(d, bo)
    modifies bo`freed
    ensures d.CacheOk() && bo.freed
  {
    bo.freed := true;
    forall i | 0 <= i < |d.buckets| ensures d.BucketOk(d.buckets[i]) {
      assert old(d.BucketOk(d.buckets[i])) && bo !in d.buckets[i].list;
    }
  }

  /** A buffer leaves its bucket from anywhere in the list. */
  method Unlink(d: Drm, k: nat, bo: Bo)
    requires d.CacheOk() && k < |d.buckets| && bo in d.buckets[k].list
    modifies d.buckets
    ensures d.CacheOk() && !Parked(d, bo) && Removed(old(d.buckets[k].list), d.buckets[k].list, bo)
    ensures forall i {:trigger d.buckets[i]} :: 0 <= i < |d.buckets| && i != k ==>
              d.buckets[i].list == old(d.buckets[i].list) && d.buckets[i].numEntries == old(d.buckets[i].numEntries)
    ensures forall x {:trigger x in d.known} :: x in d.known && x != bo ==> Parked(d, x) == old(Parked(d, x))
  {
    hide AllSizes, Fine;
    var b := d.buckets[k];
    forall i | 0 <= i < |d.buckets| && i != k ensures bo !in d.buckets[i].list {
      Disjoint(d, k, i);
    }
    assert d.BucketOk(b);
    UnlinkOne(d, b, bo);
    forall i | 0 <= i < |d.buckets| ensures d.BucketOk(d.buckets[i]) {
      if i != k { assert old(d.BucketOk(d.buckets[i])); }
    }
    forall x | x in d.known && x != bo ensures Parked(d, x) == old(Parked(d, x)) {
      if i :| 0 <= i < |d.buckets| && x in old(d.buckets[i].list) { assert x in d.buckets[i].list; }
      if i :| 0 <= i < |d.buckets| && x in d.buckets[i].list { assert x in old(d.buckets[i].list); }
    }
  }

  /** The buffer has left the list, and the others stand in their order. */
  ghost predicate Removed(was: seq<Bo>, now: seq<Bo>, bo: Bo) {
    exists i: nat {:trigger was[i]} :: i < |was| && was[i] == bo && now == Drop(was, i)
  }

  method UnlinkOne(d: Drm, b: Bucket, bo: Bo)
    requires d.BucketOk(b) && bo in b.list
    modifies b`list, b`numEntries
    ensures Removed(old(b.list), b.list, bo)
    ensures d.BucketOk(b) && forall x {:trigger x in b.list} :: x in b.list <==> x in old(b.list) && x != bo
  {
    var i :| 0 <= i < |b.list| && b.list[i] == bo;
    ghost var l := b.list;
    b.list := b.list[..i] + b.list[i + 1..];
    b.numEntries := b.numEntries - 1;
    forall x ensures x in b.list <==> x in l && x != bo {
      if x in b.list {
        var j :| 0 <= j < |b.list| && b.list[j] == x;
        assert x == l[if j < i then j else j + 1];
      }
    }
  }

  /** A parked buffer leaves the bucket that `drm_tegra_get_bucket` names for it. */
  method Unpark(d: Drm, bo: Bo)
    requires d.CacheOk() && bo in d.known && Parked(d, bo)
    modifies d.buckets
    ensures d.CacheOk() && !Parked(d, bo)
    ensures forall x {:trigger x in d.known} :: x in d.known && x != bo ==> Parked(d, x) == old(Parked(d, x))
    ensures forall i {:trigger d.buckets[i]} :: 0 <= i < |d.buckets| ==>
              if bo in old(d.buckets[i].list) then Removed(old(d.buckets[i].list), d.buckets[i].list, bo)
              else d.buckets[i].list == old(d.buckets[i].list)
    ensures forall i {:trigger d.buckets[i]} :: 0 <= i < |d.buckets| && bo !in old(d.buckets[i].list) ==>
              d.buckets[i].numEntries == old(d.buckets[i].numEntries)
  {
    hide AllSizes, Fine;
    ghost var i: nat :| i < |d.buckets| && bo in d.buckets[i].list;
    assert d.BucketOk(d.buckets[i]) && d.Fits(bo, d.buckets[i]);
    var k := Home(d, bo);
    Unlink(d, k, bo);
  }

  /** `lookup_bo` finds a buffer by handle. A parked one is taken out of its bucket, and then has two
      references for its one new user. */
  method Lookup(d: Drm, bo: Bo)
    requires d.Valid() && bo in d.known && !bo.freed
    modifies d.buckets, bo`ref
    ensures d.Valid() && !Parked(d, bo) && bo.ref == if old(Parked(d, bo)) then 2 else old(bo.ref) + 1
    ensures OthersAsBefore(d, bo)
    ensures forall i {:trigger d.buckets[i]} :: 0 <= i < |d.buckets| ==>
              if bo in old(d.buckets[i].list) then Removed(old(d.buckets[i].list), d.buckets[i].list, bo)
              else d.buckets[i].list == old(d.buckets[i].list)
    ensures forall i {:trigger d.buckets[i]} :: 0 <= i < |d.buckets| && bo !in old(d.buckets[i].list) ==>
              d.buckets[i].numEntries == old(d.buckets[i].numEntries)
  {
    hide AllSizes, Drm.CacheOk;
    var n := bo.ref;
    if i: nat :| i < |d.buckets| && bo in d.buckets[i].list {
      n := 1;
      Unpark(d, bo);
    }
    SetRef(d, bo, n + 1);
  }
}
