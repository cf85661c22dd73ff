/** Sequence helpers standing in for the Python list and numpy operations the
    tour builder relies on: `range`, `np.delete`, `argmin` and per-index lookup. */
module Seqs {

  /** The integers lo, lo+1, ..., hi-1 in increasing order, as `list(range(lo, hi))`. */
  function Range(lo: nat, hi: nat): (r: seq<nat>)
    ensures |r| == if lo <= hi then hi - lo else 0
    ensures forall i :: 0 <= i < |r| ==> r[i] == lo + i
    decreases hi - lo
  {
    if hi <= lo then [] else [lo] + Range(lo + 1, hi)
  }

  /** Every integer of [lo, hi) occurs exactly once in Range(lo, hi), and nothing else does. */
  lemma {:induction false} RangeCount(lo: nat, hi: nat, v: nat)
    ensures multiset(Range(lo, hi))[v] == if lo <= v < hi then 1 else 0
    decreases hi - lo
  {
    if lo < hi {
      var rest := Range(lo + 1, hi);
      RangeCount(lo + 1, hi, v);
      assert Range(lo, hi) == [lo] + rest;
      assert multiset(Range(lo, hi)) == multiset{lo} + multiset(rest);
    } else {
      assert Range(lo, hi) == [];
    }
  }

  /** Every entry of s is an index below n. */
  predicate InRange(n: nat, s: seq<nat>)
  {
    forall k :: 0 <= k < |s| ==> s[k] < n
  }

  predicate StrictlyIncreasing(s: seq<nat>)
  {
    forall i, j :: 0 <= i < j < |s| ==> s[i] < s[j]
  }

  /** `np.delete(s, p, axis=0)`: s without its element at position p, the
      others keeping their relative order. */
  function RemoveAt<T>(s: seq<T>, p: nat): (r: seq<T>)
    requires p < |s|
    ensures |r| == |s| - 1
    ensures forall i :: 0 <= i < |r| ==> r[i] == if i < p then s[i] else s[i + 1]
    ensures multiset(r) + multiset{s[p]} == multiset(s)
  {
    assert s == s[..p] + [s[p]] + s[p + 1..];
    s[..p] + s[p + 1..]
  }

  /** Deleting one position keeps an increasing sequence increasing. */
  lemma RemoveAtKeepsIncreasing(s: seq<nat>, p: nat)
    requires p < |s| && StrictlyIncreasing(s)
    ensures StrictlyIncreasing(RemoveAt(s, p))
  {
    var r := RemoveAt(s, p);
    forall i, j | 0 <= i < j < |r|
      ensures r[i] < r[j]
    {
      var i' := if i < p then i else i + 1;
      var j' := if j < p then j else j + 1;
      assert r[i] == s[i'] && r[j] == s[j'] && i' < j';
    }
  }

  /** `np.array(ds).argmin()`: the position of the first minimum of ds. */
  function ArgMin(ds: seq<real>): (k: nat)
    requires |ds| > 0
    ensures k < |ds|
    ensures forall j :: 0 <= j < |ds| ==> ds[k] <= ds[j]
    ensures forall j :: 0 <= j < k ==> ds[k] < ds[j]
    decreases |ds|
  {
    if |ds| == 1 then 0
    else
      var k := ArgMin(ds[..|ds| - 1]);
      if ds[|ds| - 1] < ds[k] then |ds| - 1 else k
  }

  /** `[table[i] for i in idx]`: table looked up at every index of idx, in order. */
  function Resolve<T>(idx: seq<nat>, table: seq<T>): (r: seq<T>)
    requires InRange(|table|, idx)
    ensures |r| == |idx|
    ensures forall k :: 0 <= k < |idx| ==> r[k] == table[idx[k]]
  {
    seq(|idx|, k requires 0 <= k < |idx| => table[idx[k]])
  }

  /** Looking up after deleting position i is deleting position i after looking up. */
  lemma ResolveRemoveAt<T>(b: seq<nat>, i: nat, table: seq<T>)
    requires i < |b|
    requires InRange(|table|, b)
    ensures InRange(|table|, RemoveAt(b, i))
    ensures multiset(Resolve(b, table)) == multiset(Resolve(RemoveAt(b, i), table)) + multiset{table[b[i]]}
  {
    var rest := RemoveAt(b, i);
    assert Resolve(rest, table) == RemoveAt(Resolve(b, table), i);
  }

  lemma MultisetCancel<T>(m: multiset<T>, n: multiset<T>, x: T)
    requires m + multiset{x} == n + multiset{x}
    ensures m == n
  {
    forall y
      ensures m[y] == n[y]
    {
      assert (m + multiset{x})[y] == (n + multiset{x})[y];
    }
  }

  lemma ResolveCons<T>(a: seq<nat>, table: seq<T>)
    requires a != []
    requires InRange(|table|, a)
    ensures multiset(Resolve(a, table)) == multiset(Resolve(a[1..], table)) + multiset{table[a[0]]}
  {
    assert Resolve(a, table) == [table[a[0]]] + Resolve(a[1..], table);
  }

  /** Matching the head of a with one element of b leaves two permutations. */
  lemma DropMatched<T>(a: seq<T>, b: seq<T>, i: nat)
    requires multiset(a) == multiset(b)
    requires a != [] && i < |b| && b[i] == a[0]
    ensures multiset(a[1..]) == multiset(RemoveAt(b, i))
  {
    var x := a[0];
    assert a == [x] + a[1..];
    assert multiset(a) == multiset(a[1..]) + multiset{x};
    MultisetCancel(multiset(a[1..]), multiset(RemoveAt(b, i)), x);
  }

  /** Looking up a table through two index lists that are permutations of one
      another gives two lists that are permutations of one another. */
  lemma {:induction false} ResolvePreservesPermutation<T>(a: seq<nat>, b: seq<nat>, table: seq<T>)
    requires InRange(|table|, a)
    requires InRange(|table|, b)
    requires multiset(a) == multiset(b)
    ensures multiset(Resolve(a, table)) == multiset(Resolve(b, table))
    decreases |a|
  {
    if a == [] {
      assert |b| == |multiset(b)| == 0;
    } else {
      var x := a[0];
      var i := IndexOf(b, x);
      var rest := RemoveAt(b, i);
      DropMatched(a, b, i);
      assert multiset(Resolve(b, table)) == multiset(Resolve(rest, table)) + multiset{table[x]} by {
        ResolveRemoveAt(b, i, table);
      }
      assert multiset(Resolve(a[1..], table)) == multiset(Resolve(rest, table)) by {
        ResolveRemoveAt(b, i, table);
        ResolvePreservesPermutation(a[1..], rest, table);
      }
      ResolveCons(a, table);
    }
  }

  /** A position at which x occurs in s. */
  function IndexOf<T(==)>(s: seq<T>, x: T): (i: nat)
    requires x in multiset(s)
    ensures i < |s| && s[i] == x
  {
    if s[0] == x then 0 else IndexOf(s[1..], x) + 1
  }

  lemma ResolveSlice<T>(idx: seq<nat>, table: seq<T>, lo: nat, hi: nat)
    requires lo <= hi <= |idx|
    requires InRange(|table|, idx)
    ensures InRange(|table|, idx[lo..hi])
    ensures Resolve(idx, table)[lo..hi] == Resolve(idx[lo..hi], table)
  {
  }

  /** Looking a table up through a permutation of lo, ..., hi-1 gives a
      permutation of table[lo..hi]. */
  lemma ResolvePermutationOfRange<T>(idx: seq<nat>, lo: nat, hi: nat, table: seq<T>)
    requires lo <= hi <= |table|
    requires InRange(|table|, idx)
    requires multiset(idx) == multiset(Range(lo, hi))
    ensures multiset(Resolve(idx, table)) == multiset(table[lo..hi])
  {
    ResolvePreservesPermutation(idx, Range(lo, hi), table);
    ResolveRange(lo, hi, table);
  }

  /** Looking a table up at lo, ..., hi-1 gives the slice table[lo..hi]. */
  lemma ResolveRange<T>(lo: nat, hi: nat, table: seq<T>)
    requires lo <= hi <= |table|
    ensures Resolve(Range(lo, hi), table) == table[lo..hi]
  {
  }

  /** A value found at two positions occurs at least twice. */
  lemma RepeatCounts<T>(s: seq<T>, i: nat, j: nat)
    requires i < j < |s|
    ensures s[i] == s[j] ==> multiset(s)[s[i]] >= 2
  {
    assert s == s[..j] + s[j..];
    assert s[..j][i] == s[i] && s[j..][0] == s[j];
    assert s[i] in multiset(s[..j]) && s[j] in multiset(s[j..]);
  }

  /** A permutation of lo, ..., hi-1 holds exactly those values, each once. */
  lemma PermutationOfRange(s: seq<nat>, lo: nat, hi: nat)
    requires multiset(s) == multiset(Range(lo, hi))
    ensures forall v :: v in s <==> lo <= v < hi
    ensures forall i, j :: 0 <= i < j < |s| ==> s[i] != s[j]
  {
    forall v: nat
      ensures v in s <==> lo <= v < hi
    {
      RangeCount(lo, hi, v);
      assert v in s <==> v in multiset(s);
    }
    forall i, j | 0 <= i < j < |s|
      ensures s[i] != s[j]
    {
      RangeCount(lo, hi, s[i]);
      RepeatCounts(s, i, j);
    }
  }

  /** Two permutations that agree on a prefix are permutations after it. */
  lemma SuffixPermutation<T>(a: seq<T>, b: seq<T>, q: nat)
    requires multiset(a) == multiset(b)
    requires q <= |a| && q <= |b| && a[..q] == b[..q]
    ensures multiset(a[q..]) == multiset(b[q..])
  {
    assert a == a[..q] + a[q..];
    assert b == b[..q] + b[q..];
    forall v
      ensures multiset(a[q..])[v] == multiset(b[q..])[v]
    {
      assert multiset(a)[v] == multiset(b)[v];
    }
  }

  /** `list(zip(a, b))` for two lists of equal length. */
  function Zip<A, B>(a: seq<A>, b: seq<B>): (r: seq<(A, B)>)
    requires |a| == |b|
    ensures |r| == |a|
    ensures forall i :: 0 <= i < |r| ==> r[i].0 == a[i] && r[i].1 == b[i]
  {
    seq(|a|, i requires 0 <= i < |a| => (a[i], b[i]))
  }
}
