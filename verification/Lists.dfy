/** Lists without repetitions, sums, and the sizes of sets. */
module Lists {
  ghost predicate Distinct<A>(l: seq<A>) {
    forall i, j {:trigger l[i], l[j]} :: 0 <= i < j < |l| ==> l[i] != l[j]
  }

  function Drop<A>(l: seq<A>, i: nat): (r: seq<A>)
    requires i < |l|
  {
    l[..i] + l[i + 1..]
  }

  lemma DropsOne<A>(l: seq<A>, i: nat)
    requires i < |l|
    ensures multiset(Drop(l, i)) == multiset(l) - multiset{l[i]}
    ensures Distinct(l) ==> Distinct(Drop(l, i))
  {
    assert l == l[..i] + [l[i]] + l[i + 1..];
  }

  lemma AddsOne<A>(l: seq<A>, x: A)
    ensures multiset(l + [x]) == multiset(l) + multiset{x}
    ensures Distinct(l) && x !in l ==> Distinct(l + [x])
  {
  }

  function Sum(l: seq<int>): (n: int) {
    if l == [] then 0 else Sum(l[..|l| - 1]) + l[|l| - 1]
  }

  lemma SumMore(l: seq<int>, x: int)
    ensures Sum(l + [x]) == Sum(l) + x
  {
    assert (l + [x])[..|l|] == l;
  }

  lemma SameSize<A>(a: set<A>, b: set<A>)
    requires a <= b && |b| <= |a|
    ensures a == b
  {
    if x :| x in b && x !in a { SubsetSize(a, b - {x}); }
  }

  lemma SubsetSize<A>(a: set<A>, b: set<A>)
    requires a <= b
    ensures |a| <= |b|
  {
    if x :| x in a { SubsetSize(a - {x}, b - {x}); }
  }
}
