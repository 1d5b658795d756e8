/** Sequence and set helpers shared by the scraper's model: the
    order-preserving filter that list comprehensions with an `if` compute,
    and `sorted()` of a set of integers. */
module Collections {

  /** `[x for x in s if p(x)]` */
  function Filter<T(==)>(s: seq<T>, p: T -> bool): (r: seq<T>)
    ensures |r| <= |s|
    ensures forall i :: 0 <= i < |r| ==> p(r[i])
    decreases |s|
  {
    if s == [] then []
    else Filter(s[..|s| - 1], p) + (if p(s[|s| - 1]) then [s[|s| - 1]] else [])
  }

  /** Filtering distributes over concatenation: what is kept from the front
      stays in front of what is kept from the back, so the filter keeps the
      original order. */
  lemma {:induction false} FilterAppend<T>(a: seq<T>, b: seq<T>, p: T -> bool)
    ensures Filter(a + b, p) == Filter(a, p) + Filter(b, p)
    decreases |b|
  {
    if b == [] {
      assert a + b == a;
    } else {
      var b' := b[..|b| - 1];
      assert (a + b)[..|a + b| - 1] == a + b';
      assert (a + b)[|a + b| - 1] == b[|b| - 1];
      FilterAppend(a, b', p);
    }
  }

  /** Every element is kept exactly as often as it occurs when it satisfies
      the predicate, and never otherwise. */
  lemma {:induction false} FilterCount<T>(s: seq<T>, p: T -> bool, x: T)
    ensures multiset(Filter(s, p))[x] == if p(x) then multiset(s)[x] else 0
    decreases |s|
  {
    if s != [] {
      var s' := s[..|s| - 1];
      assert s == s' + [s[|s| - 1]];
      FilterCount(s', p, x);
    }
  }

  /** A filter that every element passes keeps the whole sequence. */
  lemma {:induction false} FilterAll<T>(s: seq<T>, p: T -> bool)
    requires forall i :: 0 <= i < |s| ==> p(s[i])
    ensures Filter(s, p) == s
    decreases |s|
  {
    if s != [] {
      FilterAll(s[..|s| - 1], p);
    }
  }

  /** Whatever holds of every element holds of every element kept. */
  lemma {:induction false} FilterKeepsAll<T>(s: seq<T>, p: T -> bool, q: T -> bool)
    requires forall i :: 0 <= i < |s| ==> q(s[i])
    ensures forall i :: 0 <= i < |Filter(s, p)| ==> q(Filter(s, p)[i])
    decreases |s|
  {
    if s != [] {
      var init := s[..|s| - 1];
      assert forall i :: 0 <= i < |init| ==> init[i] == s[i];
      FilterKeepsAll(init, p, q);
      var r, f := Filter(s, p), Filter(init, p);
      assert forall i :: 0 <= i < |r| ==> r[i] == if i < |f| then f[i] else s[|s| - 1];
    }
  }

  /** A filter that no element passes keeps nothing. */
  lemma {:induction false} FilterNone<T>(s: seq<T>, p: T -> bool)
    requires forall i :: 0 <= i < |s| ==> !p(s[i])
    ensures Filter(s, p) == []
    decreases |s|
  {
    if s != [] {
      FilterNone(s[..|s| - 1], p);
    }
  }

  /** Filters by predicates that agree on every element keep the same
      elements. */
  lemma {:induction false} FilterCongruent<T>(s: seq<T>, p: T -> bool, q: T -> bool)
    requires forall i :: 0 <= i < |s| ==> p(s[i]) == q(s[i])
    ensures Filter(s, p) == Filter(s, q)
    decreases |s|
  {
    if s != [] {
      FilterCongruent(s[..|s| - 1], p, q);
    }
  }

  /** What a filter keeps was in the sequence, as often at most. */
  lemma FilterSubMultiset<T>(s: seq<T>, p: T -> bool)
    ensures multiset(Filter(s, p)) <= multiset(s)
  {
    forall x
      ensures multiset(Filter(s, p))[x] <= multiset(s)[x]
    {
      FilterCount(s, p, x);
    }
  }

  /** When the predicate, once true along the sequence, stays true (as "at
      or after a cutoff" does along a time-ordered series), the filter keeps
      a suffix. */
  lemma {:induction false} FilterSuffix<T>(s: seq<T>, p: T -> bool)
    requires forall i, j :: 0 <= i <= j < |s| && p(s[i]) ==> p(s[j])
    ensures Filter(s, p) == s[|s| - |Filter(s, p)|..]
    decreases |s|
  {
    if s != [] {
      var s' := s[..|s| - 1];
      if p(s[|s| - 1]) {
        FilterSuffix(s', p);
        var k := |Filter(s', p)|;
        assert s[|s| - (k + 1)..] == s'[|s'| - k..] + [s[|s| - 1]];
      } else {
        FilterNone(s, p);
      }
    }
  }

  /** Filtering a prefix one longer keeps what the shorter one kept, then
      the next element when it passes. */
  lemma FilterOneMore<T>(s: seq<T>, p: T -> bool, i: nat)
    requires i < |s|
    ensures Filter(s[..i + 1], p) == Filter(s[..i], p) + (if p(s[i]) then [s[i]] else [])
  {
    assert s[..i + 1][..i] == s[..i];
  }

  /** The element's key is k. */
  function KeyIs<T, K(==)>(key: T -> K, k: K): T -> bool
  {
    (x: T) => key(x) == k
  }

  /** The keys of the elements of s. */
  function KeysOf<T, K(==)>(s: seq<T>, key: T -> K): set<K>
    decreases |s|
  {
    if s == [] then {} else KeysOf(s[..|s| - 1], key) + {key(s[|s| - 1])}
  }

  /** groups holds, under each key of s, the elements of s with that key,
      in order; what `groups.setdefault(key(x), []).append(x)` over s
      builds. */
  predicate GroupedBy<T(==), K(==)>(groups: map<K, seq<T>>, s: seq<T>, key: T -> K)
  {
    && groups.Keys == KeysOf(s, key)
    && forall k :: k in groups ==> groups[k] == Filter(s, KeyIs(key, k))
  }

  /** A key has a group exactly when some element has that key. */
  lemma {:induction false} KeysOfOccupied<T, K>(s: seq<T>, key: T -> K, k: K)
    ensures k in KeysOf(s, key) <==> Filter(s, KeyIs(key, k)) != []
    decreases |s|
  {
    if s != [] {
      KeysOfOccupied(s[..|s| - 1], key, k);
    }
  }

  /** A key is among the keys of s exactly when some element has it. */
  lemma {:induction false} KeysOfMember<T, K>(s: seq<T>, key: T -> K, k: K)
    ensures k in KeysOf(s, key) <==> exists j :: 0 <= j < |s| && key(s[j]) == k
    decreases |s|
  {
    if s != [] {
      var t := s[..|s| - 1];
      KeysOfMember(t, key, k);
      if k in KeysOf(t, key) {
        var j :| 0 <= j < |t| && key(t[j]) == k;
        assert key(s[j]) == k;
      }
      assert forall j :: 0 <= j < |t| ==> t[j] == s[j];
    }
  }

  /** The keys of s + [x] are those of s and x's. */
  lemma KeysOfSnoc<T, K>(s: seq<T>, key: T -> K, x: T)
    ensures KeysOf(s + [x], key) == KeysOf(s, key) + {key(x)}
  {
    assert (s + [x])[..|s|] == s;
  }

  /** A prefix one longer is the prefix and the next element. */
  lemma TakeOneMore<T>(s: seq<T>, i: nat)
    requires i < |s|
    ensures s[..i + 1] == s[..i] + [s[i]]
  {
  }

  /** `groups.setdefault(k, []).append(x)`, as a new map. */
  function AppendTo<T, K>(groups: map<K, seq<T>>, k: K, x: T): (g: map<K, seq<T>>)
    ensures g.Keys == groups.Keys + {k}
    ensures g[k] == (if k in groups then groups[k] else []) + [x]
    ensures forall k' :: k' in groups && k' != k ==> g[k'] == groups[k']
  {
    groups[k := (if k in groups then groups[k] else []) + [x]]
  }

  /** One more `setdefault(...).append(x)` keeps the groups right. */
  lemma GroupedStep<T, K>(groups: map<K, seq<T>>, s: seq<T>, key: T -> K, x: T)
    requires GroupedBy(groups, s, key)
    ensures GroupedBy(AppendTo(groups, key(x), x), s + [x], key)
  {
    assert (s + [x])[..|s|] == s;
    KeysOfSnoc(s, key, x);
    if key(x) !in groups {
      KeysOfOccupied(s, key, key(x));
    }
  }

  predicate StrictlyIncreasing(r: seq<int>)
  {
    forall i, j :: 0 <= i < j < |r| ==> r[i] < r[j]
  }

  /** Inserts x into a strictly increasing sequence, unless it is there. */
  function Insert(r: seq<int>, x: int): (r': seq<int>)
    requires StrictlyIncreasing(r)
    ensures StrictlyIncreasing(r')
    ensures forall y :: y in r' <==> y in r || y == x
    decreases |r|
  {
    if r == [] then [x]
    else if x < r[0] then [x] + r
    else if x == r[0] then r
    else
      var rest := Insert(r[1..], x);
      assert forall y :: y in r[1..] ==> r[0] < y;
      assert forall k :: 0 <= k < |rest| ==> rest[k] in rest;
      [r[0]] + rest
  }

  function Elements(a: seq<int>): set<int>
  {
    set x | x in a
  }

  /** A strictly increasing list repeats nothing: it is as long as its set
      of elements is large. */
  lemma {:induction false} IncreasingLength(a: seq<int>)
    requires StrictlyIncreasing(a)
    ensures |Elements(a)| == |a|
    decreases |a|
  {
    if a != [] {
      IncreasingLength(a[1..]);
      assert Elements(a) == {a[0]} + Elements(a[1..]);
      assert a[0] !in Elements(a[1..]);
    }
  }

  /** There is one ascending list of given elements: a strictly increasing
      list with the elements of a set is `sorted()` of that set. */
  lemma {:induction false} SortedUnique(a: seq<int>, b: seq<int>)
    requires StrictlyIncreasing(a) && StrictlyIncreasing(b)
    requires forall x :: x in a <==> x in b
    ensures a == b
    decreases |a|
  {
    IncreasingLength(a);
    IncreasingLength(b);
    assert Elements(a) == Elements(b);
    if |a| > 0 {
      assert a[0] in b && b[0] in a;
      assert a[0] == b[0];
      forall x
        ensures x in a[1..] <==> x in b[1..]
      {
        if x in a[1..] {
          assert x in b && x != b[0];
        }
        if x in b[1..] {
          assert x in a && x != a[0];
        }
      }
      SortedUnique(a[1..], b[1..]);
      assert a == [a[0]] + a[1..] && b == [b[0]] + b[1..];
    }
  }
}
