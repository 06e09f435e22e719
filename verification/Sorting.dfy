// The C library's qsort, represented by what the C standard promises of it: a permutation
// ordered by the comparator, in no particular order among equals.
module Sorting {

  // Negative, zero or positive, like a C comparator.
  type Comparator<!T> = (T, T) -> int

  ghost predicate TotalPreorder<T(!new)>(cmp: Comparator<T>) {
    && (forall a, b :: cmp(a, b) <= 0 || cmp(b, a) <= 0)
    && (forall a, b, c :: cmp(a, b) <= 0 && cmp(b, c) <= 0 ==> cmp(a, c) <= 0)
  }

  ghost predicate Ordered<T>(cmp: Comparator<T>, s: seq<T>) {
    forall i, j :: 0 <= i < j < |s| ==> cmp(s[i], s[j]) <= 0
  }

  method LeastFrom<T(!new)>(a: array<T>, cmp: Comparator<T>, i: nat) returns (m: nat)
    requires i < a.Length && TotalPreorder(cmp)
    ensures i <= m < a.Length && forall k :: i <= k < a.Length ==> cmp(a[m], a[k]) <= 0
  {
    m := i;
    for j := i + 1 to a.Length
      invariant i <= m < j && forall k :: i <= k < j ==> cmp(a[m], a[k]) <= 0
    {
      if cmp(a[j], a[m]) <= 0 {
        m := j;
      }
    }
  }

  method Swap<T>(a: array<T>, i: nat, m: nat)
    requires i <= m < a.Length
    modifies a
    ensures a[i] == old(a[m]) && a[m] == old(a[i])
    ensures forall k :: 0 <= k < a.Length && k != i && k != m ==> a[k] == old(a[k])
    ensures multiset(a[..]) == multiset(old(a[..]))
  {
    a[i], a[m] := a[m], a[i];
  }

  // The first i elements are in place: in order, and not after any of the rest.
  ghost predicate Settled<T>(cmp: Comparator<T>, s: seq<T>, i: int) {
    forall p, q :: 0 <= p < i && p < q < |s| ==> cmp(s[p], s[q]) <= 0
  }

  lemma SwapSettles<T>(cmp: Comparator<T>, s: seq<T>, s': seq<T>, i: int, m: int)
    requires 0 <= i <= m < |s| && |s'| == |s| && Settled(cmp, s, i)
    requires forall k :: i <= k < |s| ==> cmp(s[m], s[k]) <= 0
    requires s'[i] == s[m] && s'[m] == s[i] && forall k :: 0 <= k < |s| && k != i && k != m ==> s'[k] == s[k]
    ensures Settled(cmp, s', i + 1)
  {
  }

  method Sort<T(!new)>(a: array<T>, cmp: Comparator<T>)
    requires TotalPreorder(cmp)
    modifies a
    ensures Ordered(cmp, a[..])
    ensures multiset(a[..]) == multiset(old(a[..]))
  {
    for i := 0 to a.Length
      invariant multiset(a[..]) == multiset(old(a[..]))
      invariant Settled(cmp, a[..], i)
    {
      ghost var s := a[..];
      var m := LeastFrom(a, cmp, i);
      Swap(a, i, m);
      SwapSettles(cmp, s, a[..], i, m);
    }
  }

  // --- Sorting by tag undoes a sort ------------------------------------------------

  // Every element carries its own number below |s|.
  ghost predicate Tagged<T>(tag: T -> int, s: seq<T>) {
    && (forall k :: 0 <= k < |s| ==> 0 <= tag(s[k]) < |s|)
    && (forall k, l :: 0 <= k < l < |s| ==> tag(s[k]) != tag(s[l]))
  }

  lemma {:induction false} CountsOnce<T>(tag: T -> int, s: seq<T>, e: T)
    requires forall k, l :: 0 <= k < l < |s| ==> tag(s[k]) != tag(s[l])
    ensures multiset(s)[e] <= 1
  {
    if s != [] {
      var front := s[..|s| - 1];
      assert s == front + [s[|s| - 1]];
      CountsOnce(tag, front, e);
      assert e in front ==> e != s[|s| - 1];
    }
  }

  lemma CountsTwice<T>(s: seq<T>, i: int, j: int)
    requires 0 <= i < j < |s| && s[i] == s[j]
    ensures multiset(s)[s[i]] >= 2
  {
    assert s == s[..j] + [s[j]] + s[j + 1..];
    assert s[..j][i] == s[i];
  }

  lemma PermutedStaysTagged<T>(tag: T -> int, s: seq<T>, s': seq<T>)
    requires multiset(s) == multiset(s') && Tagged(tag, s)
    ensures |s'| == |s| && Tagged(tag, s')
    ensures forall e :: e in s <==> e in s'
  {
    assert |multiset(s)| == |s| && |multiset(s')| == |s'|;
    assert forall e :: e in s <==> e in multiset(s);
    assert forall e :: e in s' <==> e in multiset(s');
    forall k | 0 <= k < |s'| ensures s'[k] in s {
      assert s'[k] in s';
    }
    forall k, l | 0 <= k < l < |s'| ensures tag(s'[k]) != tag(s'[l]) {
      if s'[k] == s'[l] {
        CountsTwice(s', k, l);
        CountsOnce(tag, s, s'[k]);
      }
    }
  }

  lemma {:induction false} OrderedTagsClimb<T>(tag: T -> int, s: seq<T>, k: int)
    requires Tagged(tag, s) && 0 <= k < |s|
    requires forall i, j :: 0 <= i < j < |s| ==> tag(s[i]) <= tag(s[j])
    ensures k <= tag(s[k])
  {
    if k > 0 {
      OrderedTagsClimb(tag, s, k - 1);
      assert tag(s[k - 1]) != tag(s[k]);
    }
  }

  lemma {:induction false} OrderedTagsFall<T>(tag: T -> int, s: seq<T>, k: int)
    requires Tagged(tag, s) && 0 <= k < |s|
    requires forall i, j :: 0 <= i < j < |s| ==> tag(s[i]) <= tag(s[j])
    ensures tag(s[k]) <= k
    decreases |s| - k
  {
    if k < |s| - 1 {
      OrderedTagsFall(tag, s, k + 1);
      assert tag(s[k]) != tag(s[k + 1]);
    }
  }

  // Ordering a tagged sequence by its tags puts every element at its own number.
  lemma OrderedTagsAreIndices<T>(tag: T -> int, s: seq<T>)
    requires Tagged(tag, s)
    requires forall i, j :: 0 <= i < j < |s| ==> tag(s[i]) <= tag(s[j])
    ensures forall k :: 0 <= k < |s| ==> tag(s[k]) == k
  {
    forall k | 0 <= k < |s| ensures tag(s[k]) == k {
      OrderedTagsClimb(tag, s, k);
      OrderedTagsFall(tag, s, k);
    }
  }

  // The tags of a tagged sequence are all the numbers below its length.
  lemma TagsAreOnto<T>(tag: T -> int, s: seq<T>, i: int)
    requires Tagged(tag, s) && 0 <= i < |s|
    ensures exists k :: 0 <= k < |s| && tag(s[k]) == i
  {
    var tags := set k | 0 <= k < |s| :: tag(s[k]);
    var all := Below(|s|);
    CountTags(tag, s, |s|);
    assert tags <= all;
    if i !in tags {
      SmallerSet(tags, all - {i});
    }
  }

  lemma {:induction false} CountTags<T>(tag: T -> int, s: seq<T>, n: nat)
    requires n <= |s| && forall k, l :: 0 <= k < l < |s| ==> tag(s[k]) != tag(s[l])
    ensures |set k | 0 <= k < n :: tag(s[k])| == n
  {
    if n > 0 {
      CountTags(tag, s, n - 1);
      assert (set k | 0 <= k < n :: tag(s[k])) == (set k | 0 <= k < n - 1 :: tag(s[k])) + {tag(s[n - 1])};
    }
  }

  ghost function Below(n: nat): (s: set<int>)
    ensures |s| == n && forall k :: k in s <==> 0 <= k < n
  {
    if n == 0 then {} else Below(n - 1) + {n - 1}
  }

  lemma {:induction false} SmallerSet<T>(a: set<T>, b: set<T>)
    requires a <= b
    ensures |a| <= |b|
  {
    if a != {} {
      var e :| e in a;
      SmallerSet(a - {e}, b - {e});
    }
  }
}
