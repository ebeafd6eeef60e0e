/**
 * Sequence operations the source performs on query results and on id arrays: `filter`,
 * counting, summing, a sort by a numeric key (Mongo's `.sort`), and the membership-guarded
 * `push` and the remove-every-occurrence `pull` of Mongoose arrays.
 */
module Collections {
  import opened Wrappers

  /** `s.filter(p)`: the elements satisfying `p`, in their original order. */
  function Filter<T(!new)>(s: seq<T>, p: T -> bool): (r: seq<T>)
    ensures |r| <= |s|
    ensures forall k :: 0 <= k < |r| ==> p(r[k])
    ensures forall x :: x in r <==> x in s && p(x)
    ensures forall x :: multiset(r)[x] == if p(x) then multiset(s)[x] else 0
  {
    if s == [] then []
    else
      var rest := Filter(s[1..], p);
      assert s == [s[0]] + s[1..];
      assert multiset(s) == multiset{s[0]} + multiset(s[1..]);
      if p(s[0]) then
        assert multiset([s[0]] + rest) == multiset{s[0]} + multiset(rest);
        [s[0]] + rest
      else rest
  }

  /** Filtering distributes over concatenation, so it keeps relative order. */
  lemma {:induction false} FilterConcat<T(!new)>(a: seq<T>, b: seq<T>, p: T -> bool)
    ensures Filter(a + b, p) == Filter(a, p) + Filter(b, p)
    decreases |a|
  {
    if a == [] {
      assert a + b == b;
    } else {
      assert (a + b)[1..] == a[1..] + b;
      FilterConcat(a[1..], b, p);
      if p(a[0]) {
        assert Filter(a + b, p) == [a[0]] + Filter(a[1..] + b, p);
        assert Filter(a, p) == [a[0]] + Filter(a[1..], p);
        ConcatAssoc([a[0]], Filter(a[1..], p), Filter(b, p));
      } else {
        assert Filter(a + b, p) == Filter(a[1..] + b, p);
        assert Filter(a, p) == Filter(a[1..], p);
      }
    }
  }

  lemma ConcatAssoc<T>(x: seq<T>, y: seq<T>, z: seq<T>)
    ensures x + (y + z) == x + y + z
  {
  }

  /** A filter that every element passes changes nothing. */
  lemma {:induction false} FilterKeepsAll<T(!new)>(s: seq<T>, p: T -> bool)
    requires forall k :: 0 <= k < |s| ==> p(s[k])
    ensures Filter(s, p) == s
    decreases |s|
  {
    if s != [] {
      FilterKeepsAll(s[1..], p);
      assert [s[0]] + s[1..] == s;
    }
  }

  /** Filtering a sequence whose first element passes keeps that element in front. */
  lemma FilterHead<T(!new)>(s: seq<T>, p: T -> bool)
    requires s != [] && p(s[0])
    ensures Filter(s, p) == [s[0]] + Filter(s[1..], p)
  {
  }

  /** A sequence that maps `tail` pointwise by `f`, with `f(x)` put in front, maps `[x] + tail`. */
  lemma ConsMapped<A, B>(x: A, tail: seq<A>, y: B, rest: seq<B>, f: A --> B)
    requires f.requires(x) && y == f(x)
    requires |rest| == |tail| && forall k :: 0 <= k < |tail| ==> f.requires(tail[k]) && rest[k] == f(tail[k])
    ensures forall k :: 0 <= k < |tail| + 1 ==> f.requires(([x] + tail)[k]) && ([y] + rest)[k] == f(([x] + tail)[k])
  {
    forall k | 1 <= k < |tail| + 1
      ensures f.requires(([x] + tail)[k]) && ([y] + rest)[k] == f(([x] + tail)[k])
    {
      assert ([x] + tail)[k] == tail[k - 1] && ([y] + rest)[k] == rest[k - 1];
    }
  }

  /** The number of elements satisfying `p` (`countDocuments` with that filter). */
  function Count<T(!new)>(s: seq<T>, p: T -> bool): nat
  {
    |Filter(s, p)|
  }

  /** Appending one element raises a count by one exactly when the element satisfies `p`. */
  lemma CountAppend<T(!new)>(s: seq<T>, x: T, p: T -> bool)
    ensures Count(s + [x], p) == Count(s, p) + (if p(x) then 1 else 0)
  {
    FilterConcat(s, [x], p);
    assert Filter([x], p) == (if p(x) then [x] else []) by {
      assert [x][1..] == [];
    }
  }

  /** Counting splits off the first element. */
  lemma CountCons<T(!new)>(s: seq<T>, p: T -> bool)
    requires s != []
    ensures Count(s, p) == (if p(s[0]) then 1 else 0) + Count(s[1..], p)
  {
    assert s == [s[0]] + s[1..];
    FilterConcat([s[0]], s[1..], p);
    assert Filter([s[0]], p) == (if p(s[0]) then [s[0]] else []) by {
      assert [s[0]][1..] == [];
    }
  }

  /**
   * When no two elements satisfy `p`, the count is one if some element does and zero otherwise:
   * `$unwind` after a `$lookup` on a unique key yields at most one document.
   */
  lemma {:induction false} CountUnique<T(!new)>(s: seq<T>, p: T -> bool)
    requires forall i, j :: 0 <= i < |s| && 0 <= j < |s| && p(s[i]) && p(s[j]) ==> i == j
    ensures Count(s, p) == if exists k :: 0 <= k < |s| && p(s[k]) then 1 else 0
    decreases |s|
  {
    if s != [] {
      var rest := s[1..];
      assert forall k :: 0 <= k < |rest| ==> rest[k] == s[k + 1];
      CountUnique(rest, p);
      CountCons(s, p);
      if p(s[0]) {
        assert forall k :: 0 <= k < |rest| ==> !p(rest[k]);
      } else if exists k :: 0 <= k < |s| && p(s[k]) {
        var k :| 0 <= k < |s| && p(s[k]);
        assert p(rest[k - 1]);
      }
    }
  }

  /** The sum of `f` over `s` (`$group` with `$sum`, 0 over no documents). */
  function SumOf<T(!new)>(s: seq<T>, f: T -> nat): nat
  {
    if s == [] then 0 else f(s[0]) + SumOf(s[1..], f)
  }

  lemma {:induction false} SumConcat<T(!new)>(a: seq<T>, b: seq<T>, f: T -> nat)
    ensures SumOf(a + b, f) == SumOf(a, f) + SumOf(b, f)
    decreases |a|
  {
    if a == [] {
      assert a + b == b;
    } else {
      assert (a + b)[1..] == a[1..] + b;
      SumConcat(a[1..], b, f);
    }
  }

  /** `s` is in non-decreasing order of `key`. */
  ghost predicate SortedBy<T(!new)>(s: seq<T>, key: T -> int)
  {
    forall i, j :: 0 <= i < j < |s| ==> key(s[i]) <= key(s[j])
  }

  /** The tail of a sorted sequence is sorted. */
  lemma SortedTail<T(!new)>(s: seq<T>, key: T -> int)
    requires s != [] && SortedBy(s, key)
    ensures SortedBy(s[1..], key)
    ensures forall k :: 0 <= k < |s[1..]| ==> key(s[0]) <= key(s[1..][k])
  {
    var t := s[1..];
    forall i, j | 0 <= i < j < |t| ensures key(t[i]) <= key(t[j]) {
      assert t[i] == s[i + 1] && t[j] == s[j + 1];
    }
    forall k | 0 <= k < |t| ensures key(s[0]) <= key(t[k]) {
      assert t[k] == s[k + 1];
    }
  }

  /** An element no greater than any element of a sorted sequence can lead it. */
  lemma SortedCons<T(!new)>(y: T, t: seq<T>, key: T -> int)
    requires SortedBy(t, key)
    requires forall k :: 0 <= k < |t| ==> key(y) <= key(t[k])
    ensures SortedBy([y] + t, key)
  {
    var r := [y] + t;
    forall i, j | 0 <= i < j < |r| ensures key(r[i]) <= key(r[j]) {
      assert r[j] == t[j - 1];
      if i > 0 {
        assert r[i] == t[i - 1];
      }
    }
  }

  /** Insert `x` into a sorted sequence after every element with a smaller or equal key. */
  function Insert<T(!new)>(x: T, s: seq<T>, key: T -> int): (r: seq<T>)
    requires SortedBy(s, key)
    ensures SortedBy(r, key)
    ensures multiset(r) == multiset(s) + multiset{x}
    ensures |r| == |s| + 1
  {
    if s == [] then [x]
    else
      SortedTail(s, key);
      if key(x) < key(s[0]) then
        SortedCons(x, s, key);
        [x] + s
      else
        var rest := Insert(x, s[1..], key);
        assert s == [s[0]] + s[1..];
        assert forall k :: 0 <= k < |rest| ==> key(s[0]) <= key(rest[k]) by {
          forall k | 0 <= k < |rest| ensures key(s[0]) <= key(rest[k]) {
            assert rest[k] in multiset(s[1..]) + multiset{x};
          }
        }
        SortedCons(s[0], rest, key);
        [s[0]] + rest
  }

  /**
   * `.sort({ key: 1 })`: the same elements, in non-decreasing order of `key`. A descending
   * sort is this sort on the negated key. Mongo leaves the order of equal keys unspecified,
   * and so does this contract.
   */
  function SortBy<T(!new)>(s: seq<T>, key: T -> int): (r: seq<T>)
    ensures SortedBy(r, key)
    ensures multiset(r) == multiset(s)
    ensures |r| == |s|
  {
    if s == [] then []
    else
      assert s == [s[0]] + s[1..];
      Insert(s[0], SortBy(s[1..], key), key)
  }

  /** A sort lists only elements of its input, so what holds of every input element holds of every listed one. */
  lemma SortedAllSatisfy<T(!new)>(s: seq<T>, key: T -> int, p: T -> bool)
    requires forall k :: 0 <= k < |s| ==> p(s[k])
    ensures forall k :: 0 <= k < |SortBy(s, key)| ==> p(SortBy(s, key)[k])
  {
    var r := SortBy(s, key);
    forall k | 0 <= k < |r| ensures p(r[k]) {
      assert r[k] in multiset(s);
    }
  }

  /** The images of the elements a filter keeps are exactly the images of the elements satisfying `p`. */
  lemma MappedFilterMembers<T(!new), U(!new)>(s: seq<T>, p: T -> bool, f: T -> U, r: seq<U>)
    requires |r| == |Filter(s, p)|
    requires forall k :: 0 <= k < |r| ==> r[k] == f(Filter(s, p)[k])
    ensures forall c :: c in r <==> exists k :: 0 <= k < |s| && p(s[k]) && c == f(s[k])
  {
    var fs := Filter(s, p);
    forall c | c in r ensures exists k :: 0 <= k < |s| && p(s[k]) && c == f(s[k]) {
      var i :| 0 <= i < |r| && r[i] == c;
      assert fs[i] in s;
    }
    forall k | 0 <= k < |s| && p(s[k]) ensures f(s[k]) in r {
      assert s[k] in fs;
      var i :| 0 <= i < |fs| && fs[i] == s[k];
      assert r[i] == f(s[k]);
    }
  }

  /** No element occurs twice. */
  ghost predicate NoDuplicates<T(!new)>(s: seq<T>)
  {
    forall i, j :: 0 <= i < |s| && 0 <= j < |s| && s[i] == s[j] ==> i == j
  }

  /** `if (!arr.includes(x)) arr.push(x)`. */
  function AddIfAbsent<T(==,!new)>(s: seq<T>, x: T): (r: seq<T>)
    ensures x in r
    ensures forall y :: y in r <==> y in s || y == x
    ensures multiset(r)[x] == if x in s then multiset(s)[x] else 1
    ensures forall y :: y != x ==> multiset(r)[y] == multiset(s)[y]
    ensures s <= r
  {
    if x in s then s else s + [x]
  }

  /** `arr.pull(x)`: every occurrence of `x` removed, everything else kept in order. */
  function RemoveAll<T(==,!new)>(s: seq<T>, x: T): (r: seq<T>)
    ensures x !in r
    ensures forall y :: y != x ==> multiset(r)[y] == multiset(s)[y]
  {
    Filter(s, y => y != x)
  }

  /** Adding an element that is already present changes nothing, so a second add is a no-op. */
  lemma AddIfAbsentIdempotent<T(!new)>(s: seq<T>, x: T)
    ensures AddIfAbsent(AddIfAbsent(s, x), x) == AddIfAbsent(s, x)
    ensures x in s ==> AddIfAbsent(s, x) == s
  {
  }

  /** Adding never creates a duplicate: a list without duplicates stays without them, and the
      added element occurs exactly once. */
  lemma AddIfAbsentNoDuplicates<T(!new)>(s: seq<T>, x: T)
    requires NoDuplicates(s)
    ensures NoDuplicates(AddIfAbsent(s, x))
    ensures multiset(AddIfAbsent(s, x))[x] == 1
  {
    if x in s {
      var i :| 0 <= i < |s| && s[i] == x;
      MultisetCountOne(s, i);
    } else {
      var r := s + [x];
      assert forall i :: 0 <= i < |s| ==> r[i] == s[i];
    }
  }

  /** In a list without duplicates the element at `i` occurs once. */
  lemma {:induction false} MultisetCountOne<T(!new)>(s: seq<T>, i: nat)
    requires NoDuplicates(s) && i < |s|
    ensures multiset(s)[s[i]] == 1
    decreases |s|
  {
    assert s == [s[0]] + s[1..];
    assert NoDuplicates(s[1..]) by {
      forall a, b | 0 <= a < |s[1..]| && 0 <= b < |s[1..]| && s[1..][a] == s[1..][b] ensures a == b {
        assert s[a + 1] == s[b + 1];
      }
    }
    if i == 0 {
      assert forall k :: 0 <= k < |s[1..]| ==> s[1..][k] == s[k + 1];
    } else {
      MultisetCountOne(s[1..], i - 1);
      assert s[0] != s[i];
    }
  }

  /** Removing an absent element changes nothing; removing twice is removing once. */
  lemma RemoveAllAbsent<T(!new)>(s: seq<T>, x: T)
    ensures x !in s ==> RemoveAll(s, x) == s
    ensures RemoveAll(RemoveAll(s, x), x) == RemoveAll(s, x)
  {
    FilterKeepsAll(RemoveAll(s, x), y => y != x);
    if x !in s {
      FilterKeepsAll(s, y => y != x);
    }
  }

  /** Add then remove gives back the list with `x` removed: nothing else is left behind. */
  lemma RemoveAfterAdd<T(!new)>(s: seq<T>, x: T)
    ensures RemoveAll(AddIfAbsent(s, x), x) == RemoveAll(s, x)
  {
    if x !in s {
      FilterConcat(s, [x], y => y != x);
      assert Filter([x], y => y != x) == [] by { assert [x][1..] == []; }
      assert RemoveAll(s, x) + [] == RemoveAll(s, x);
    }
  }

  /**
   * `.sort({ key: -1 }).findOne()` / `.limit(1)`: an element with the greatest key, `None` exactly
   * when there is none. Which of several equal maxima the store returns is unspecified; this picks
   * the first.
   */
  function MaxBy<T(!new)>(s: seq<T>, key: T -> int): (r: Option<T>)
    ensures r.None? <==> s == []
    ensures r.Some? ==> r.value in s
    ensures r.Some? ==> forall k :: 0 <= k < |s| ==> key(s[k]) <= key(r.value)
  {
    if s == [] then None
    else
      var rest := MaxBy(s[1..], key);
      assert forall k :: 1 <= k < |s| ==> s[k] == s[1..][k - 1];
      if rest.None? || key(s[0]) >= key(rest.value) then Some(s[0]) else rest
  }

  /** `.skip(skip).limit(limit)`: the elements from index `skip` on, at most `limit` of them. */
  function Window<T>(s: seq<T>, skip: nat, limit: nat): (r: seq<T>)
    ensures |r| == if skip >= |s| then 0 else if skip + limit <= |s| then limit else |s| - skip
    ensures forall k :: 0 <= k < |r| ==> r[k] == s[skip + k]
  {
    if skip >= |s| then [] else if skip + limit <= |s| then s[skip..skip + limit] else s[skip..]
  }

  /** `i` is the first position of `s` whose element satisfies `p`. */
  predicate FirstAt<T>(s: seq<T>, p: T -> bool, i: int)
  {
    0 <= i < |s| && p(s[i]) && forall k :: 0 <= k < i ==> !p(s[k])
  }

  /** `findOne(filter)` in store order: the first element satisfying `p`, `None` when none does. */
  function First<T(!new)>(s: seq<T>, p: T -> bool): (r: Option<T>)
    ensures r.Some? ==> r.value in s && p(r.value)
    ensures r.Some? ==> exists i :: FirstAt(s, p, i) && s[i] == r.value
    ensures r.None? <==> forall k :: 0 <= k < |s| ==> !p(s[k])
  {
    if s == [] then None
    else if p(s[0]) then
      assert FirstAt(s, p, 0);
      Some(s[0])
    else
      var r := First(s[1..], p);
      assert forall k :: 1 <= k < |s| ==> s[k] == s[1..][k - 1];
      FirstShift(s, p, r);
      r
  }

  /** A first match of the tail is a first match of the whole when the head fails. */
  lemma FirstShift<T>(s: seq<T>, p: T -> bool, r: Option<T>)
    requires s != [] && !p(s[0])
    requires r.Some? ==> exists i :: FirstAt(s[1..], p, i) && s[1..][i] == r.value
    ensures r.Some? ==> exists i :: FirstAt(s, p, i) && s[i] == r.value
  {
    if r.Some? {
      var i :| FirstAt(s[1..], p, i) && s[1..][i] == r.value;
      FirstAtShift(s, p, i);
    }
  }

  lemma FirstAtShift<T>(s: seq<T>, p: T -> bool, i: int)
    requires s != [] && !p(s[0]) && FirstAt(s[1..], p, i)
    ensures FirstAt(s, p, i + 1) && s[i + 1] == s[1..][i]
  {
    forall k | 0 <= k < i + 1 ensures !p(s[k]) {
      if k > 0 { assert s[k] == s[1..][k - 1]; }
    }
  }
}
