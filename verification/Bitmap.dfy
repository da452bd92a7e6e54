/** The slot bitmap of a memory pool: words scanned with masks and find-first-set, against the
    sequence of slots they stand for.

    A word is given by its 32 bits, least significant first (`unsigned long` is 32 bits wide), and
    `Value` ties it to the integer the C code computes with. */
module Bitmap {

  const BITS := 32

  type Word = w: seq<bool> | |w| == BITS witness seq(BITS, _ => false)

  function Or(w: Word, v: Word): (r: Word) { seq(BITS, i requires 0 <= i < BITS => w[i] || v[i]) }

  function And(w: Word, v: Word): (r: Word) { seq(BITS, i requires 0 <= i < BITS => w[i] && v[i]) }

  function Not(w: Word): (r: Word) { seq(BITS, i requires 0 <= i < BITS => !w[i]) }

  const ZERO: Word := seq(BITS, _ => false)

  /** `1 << k` */
  function OneBit(k: nat): (r: Word)
    requires k < BITS
  {
    seq(BITS, i => i == k)
  }

  /** `(1 << k) - 1` */
  function BitsBelow(k: nat): (r: Word)
    requires k < BITS
  {
    seq(BITS, i => i < k)
  }

  function Pow2(n: nat): (r: nat)
    ensures r > 0
  {
    if n == 0 then 1 else 2 * Pow2(n - 1)
  }

  /** The integer with the low `n` bits of `w`. */
  function Value(w: seq<bool>, n: nat): (r: nat)
    requires n <= |w|
    ensures r < Pow2(n)
  {
    if n == 0 then 0 else Value(w, n - 1) + if w[n - 1] then Pow2(n - 1) else 0
  }

  lemma {:induction false} MaskValues(k: nat, n: nat)
    requires k < BITS && n <= BITS
    ensures Value(OneBit(k), n) == if k < n then Pow2(k) else 0
    ensures Value(BitsBelow(k), n) == if k < n then Pow2(k) - 1 else Pow2(n) - 1
  {
    if n > 0 { MaskValues(k, n - 1); }
  }

  /** The C test `if (word)` fails. */
  predicate IsZero(w: Word) {
    forall i :: 0 <= i < BITS ==> !w[i]
  }

  /** A word is zero as an integer exactly when it has no bit set. */
  lemma {:induction false} ZeroValue(w: Word, n: nat)
    requires n <= BITS
    ensures Value(w, n) == 0 <==> forall i :: 0 <= i < n ==> !w[i]
  {
    if n > 0 { ZeroValue(w, n - 1); }
  }

  /** `__builtin_ffsl` on a non-zero word, counting positions from zero. */
  function LowestBit(w: Word): (k: nat)
    requires !IsZero(w)
    ensures k < BITS && w[k]
    ensures forall j :: 0 <= j < k ==> !w[j]
  {
    LowestBitFrom(w, 0)
  }

  function LowestBitFrom(w: Word, from: nat): (k: nat)
    requires exists j :: from <= j < BITS && w[j]
    ensures from <= k < BITS && w[k]
    ensures forall j :: from <= j < k ==> !w[j]
    decreases BITS - from
  {
    if w[from] then from else LowestBitFrom(w, from + 1)
  }

  predicate BitAt(words: seq<Word>, i: nat)
    requires i < BITS * |words|
  {
    words[i / BITS][i % BITS]
  }

  /** The words and the slots they stand for. The trigger keeps bit-level terms out of the proofs
      about slots. */
  ghost predicate Agrees(words: seq<Word>, used: seq<bool>) {
    && |used| == BITS * |words|
    && forall i {:trigger BitAt(words, i)} :: 0 <= i < |used| ==> used[i] == BitAt(words, i)
  }

  lemma FirstBit(words: seq<Word>, used: seq<bool>)
    requires Agrees(words, used) && |words| > 0
    ensures words[0][0] == used[0]
  {
    assert used[0] == BitAt(words, 0);
  }

  lemma SetAgrees(words: seq<Word>, used: seq<bool>, i: nat)
    requires Agrees(words, used) && i < |used|
    ensures Agrees(words[i / BITS := Or(words[i / BITS], OneBit(i % BITS))], used[i := true])
  {
    var words' := words[i / BITS := Or(words[i / BITS], OneBit(i % BITS))];
    forall j {:trigger BitAt(words', j)} | 0 <= j < |used| ensures used[i := true][j] == BitAt(words', j) {
      assert used[j] == BitAt(words, j);
    }
  }

  lemma ClearAgrees(words: seq<Word>, used: seq<bool>, i: nat)
    requires Agrees(words, used) && i < |used|
    ensures Agrees(words[i / BITS := And(words[i / BITS], Not(OneBit(i % BITS)))], used[i := false])
  {
    var words' := words[i / BITS := And(words[i / BITS], Not(OneBit(i % BITS)))];
    forall j {:trigger BitAt(words', j)} | 0 <= j < |used| ensures used[i := false][j] == BitAt(words', j) {
      assert used[j] == BitAt(words, j);
    }
  }

  lemma ZeroAgrees(n: nat)
    ensures Agrees(seq(n, _ => ZERO), seq(BITS * n, _ => false))
  {
    var words := seq(n, _ => ZERO);
    forall j {:trigger BitAt(words, j)} | 0 <= j < BITS * n ensures !BitAt(words, j) { }
  }

  /** A new word of zeroes adds 32 unused slots. */
  lemma GrowAgrees(words: seq<Word>, used: seq<bool>)
    requires Agrees(words, used)
    ensures Agrees(words + [ZERO], used + seq(BITS, _ => false))
  {
    var words', used' := words + [ZERO], used + seq(BITS, _ => false);
    forall j {:trigger BitAt(words', j)} | 0 <= j < |used'| ensures used'[j] == BitAt(words', j) {
      if j < |used| { assert used[j] == BitAt(words, j); }
    }
  }

  /** What a scan for the next slot in state `want` must return. */
  ghost predicate IsNext(used: seq<bool>, start: nat, want: bool, r: int) {
    if r == -1 then forall i :: start <= i < |used| ==> used[i] != want
    else start <= r < |used| && used[r] == want && forall i :: start <= i < r ==> used[i] != want
  }

  lemma IsNextUnique(used: seq<bool>, start: nat, want: bool, r: int, r': int)
    requires IsNext(used, start, want, r) && IsNext(used, start, want, r')
    ensures r == r'
  {
  }

  /** The scan has passed every slot from `start` up to word `a`, and `word` marks the slots of that
      word in state `want` that are not before `start`. */
  ghost predicate Scanning(used: seq<bool>, start: nat, want: bool, a: nat, word: Word) {
    && (forall i :: start <= i < BITS * a && i < |used| ==> used[i] != want)
    && forall k {:trigger word[k]} :: 0 <= k < BITS && BITS * a + k < |used| ==>
         (word[k] <==> used[BITS * a + k] == want && start <= BITS * a + k)
  }

  lemma ScanStart(words: seq<Word>, used: seq<bool>, start: nat)
    requires Agrees(words, used) && start / BITS < |words|
    ensures Scanning(used, start, false, start / BITS, Not(Or(words[start / BITS], BitsBelow(start % BITS))))
    ensures Scanning(used, start, true, start / BITS, And(words[start / BITS], Not(BitsBelow(start % BITS))))
  {
    var a := start / BITS;
    forall k | 0 <= k < BITS ensures used[BITS * a + k] == words[a][k] {
      assert used[BITS * a + k] == BitAt(words, BITS * a + k);
    }
  }

  lemma ScanNextWord(words: seq<Word>, used: seq<bool>, start: nat, want: bool, a: nat, word: Word)
    requires Agrees(words, used) && a < |words| && start / BITS <= a
    requires Scanning(used, start, want, a, word) && IsZero(word)
    ensures forall i :: start <= i < BITS * (a + 1) ==> used[i] != want
    ensures a + 1 < |words| ==> Scanning(used, start, want, a + 1, if want then words[a + 1] else Not(words[a + 1]))
  {
    forall i | start <= i < BITS * (a + 1) ensures used[i] != want {
      if i >= BITS * a { assert !word[i - BITS * a]; }
    }
    if a + 1 < |words| {
      forall k {:trigger words[a + 1][k]} | 0 <= k < BITS ensures used[BITS * (a + 1) + k] == words[a + 1][k] {
        assert used[BITS * (a + 1) + k] == BitAt(words, BITS * (a + 1) + k);
      }
    }
  }

  lemma ScanHit(words: seq<Word>, used: seq<bool>, start: nat, want: bool, a: nat, word: Word)
    requires Agrees(words, used) && a < |words| && start / BITS <= a
    requires Scanning(used, start, want, a, word) && !IsZero(word)
    ensures IsNext(used, start, want, a * BITS + LowestBit(word))
  {
    var k := LowestBit(word);
    forall i | start <= i < a * BITS + k ensures used[i] != want {
      if i >= BITS * a { assert !word[i - BITS * a]; }
    }
  }

  /** `get_next_unused_entry` */
  method NextUnused(words: seq<Word>, ghost used: seq<bool>, start: nat) returns (r: int)
    requires Agrees(words, used)
    ensures IsNext(used, start, false, r)
  {
    var a := start / BITS;
    if a >= |words| {
      return -1;
    }
    var word := Or(words[a], BitsBelow(start % BITS));
    ScanStart(words, used, start);
    while true
      invariant start / BITS <= a < |words| && Scanning(used, start, false, a, Not(word))
      decreases |words| - a
    {
      if !IsZero(Not(word)) {
        ScanHit(words, used, start, false, a, Not(word));
        return a * BITS + LowestBit(Not(word));
      }
      ScanNextWord(words, used, start, false, a, Not(word));
      a := a + 1;
      if a >= |words| { return -1; }
      word := words[a];
    }
  }

  /** `mem_pool_get_next_used_entry` */
  method NextUsed(words: seq<Word>, ghost used: seq<bool>, start: nat) returns (r: int)
    requires Agrees(words, used)
    ensures IsNext(used, start, true, r)
  {
    var a := start / BITS;
    if a >= |words| {
      return -1;
    }
    var word := And(words[a], Not(BitsBelow(start % BITS)));
    ScanStart(words, used, start);
    while true
      invariant start / BITS <= a < |words| && Scanning(used, start, true, a, word)
      decreases |words| - a
    {
      if !IsZero(word) {
        ScanHit(words, used, start, true, a, word);
        return a * BITS + LowestBit(word);
      }
      ScanNextWord(words, used, start, true, a, word);
      a := a + 1;
      if a >= |words| { return -1; }
      word := words[a];
    }
  }
}
