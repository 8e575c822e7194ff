/** Values and sequence facts shared by the two tag tools. */
module Common {

  /** Python's `None` or a value. */
  datatype Option<+T> = None | Some(value: T)

  /** A value or the exception that Python would raise instead. */
  datatype Result<+T, +E> = Ok(value: T) | Err(error: E) {
    predicate IsFailure() { Err? }
    function PropagateFailure<U>(): Result<U, E> requires Err? { Err(error) }
    function Extract(): T requires Ok? { value }
  }

  /** An EC2 tag, the provider's `{"Key": ..., "Value": ...}` dict; equality compares both fields. */
  datatype Tag = Tag(key: string, value: string)

  /** No two tags share a key: the shape of an instance's tag set on the provider. */
  predicate UniqueKeys(tags: seq<Tag>)
  {
    forall i, j :: 0 <= i < j < |tags| ==> tags[i].key != tags[j].key
  }

  predicate Distinct<T(==)>(s: seq<T>)
  {
    forall i, j :: 0 <= i < j < |s| ==> s[i] != s[j]
  }

  // ---------------------------------------------------------------------------
  // Filtering: Python's `[x for x in s if p(x)]`

  function Filter<T(!new)>(p: T -> bool, s: seq<T>): (r: seq<T>)
    ensures |r| <= |s|
    ensures forall x :: x in r <==> x in s && p(x)
  {
    if s == [] then [] else (if p(s[0]) then [s[0]] else []) + Filter(p, s[1..])
  }

  // ---------------------------------------------------------------------------
  // Instantiation hints. The lemmas from here to UpdateTwice are one-step
  // unfoldings of Filter and one-line identities of sequences and maps that
  // Dafny proves with empty bodies. They are no results about the scripts:
  // calling one with the concrete arguments hands the solver the equation it
  // needs, which is far cheaper than letting it rediscover the equation on
  // sequences of records, rows or calls.

  /** One step of Filter on a list whose head is kept. */
  lemma FilterKeep<T(!new)>(p: T -> bool, s: seq<T>)
    requires s != [] && p(s[0])
    ensures Filter(p, s) == [s[0]] + Filter(p, s[1..])
  {
  }

  /** One step of Filter on a list whose head is dropped. */
  lemma FilterSkip<T(!new)>(p: T -> bool, s: seq<T>)
    requires s != [] && !p(s[0])
    ensures Filter(p, s) == Filter(p, s[1..])
  {
    assert [] + Filter(p, s[1..]) == Filter(p, s[1..]);
  }

  /** Growing a slice by one element. */
  lemma SliceExtend<T>(s: seq<T>, i: nat, j: nat)
    requires i <= j < |s|
    ensures s[i..j + 1] == s[i..j] + [s[j]]
  {
  }

  lemma AppendAssoc<T>(a: seq<T>, b: seq<T>, c: seq<T>)
    ensures a + b + c == a + (b + c)
  {
  }

  lemma ConsAssoc<T>(x: T, a: seq<T>, b: seq<T>, c: seq<T>)
    ensures [x] + (a + b + c) == [x] + a + b + c
  {
  }

  lemma NilAppend<T>(a: seq<T>)
    ensures [] + a == a
  {
  }

  lemma SnocInit<T>(s: seq<T>)
    requires s != []
    ensures s[..|s| - 1] + [s[|s| - 1]] == s
  {
  }

  lemma SnocPrefix<T>(s: seq<T>, x: T)
    ensures (s + [x])[..|s|] == s && (s + [x])[|s|] == x
  {
  }

  lemma AppendPair<T>(a: seq<T>, x: T, y: T)
    ensures a + [x] + [y] == a + [x, y]
  {
  }

  lemma AppendNil<T>(a: seq<T>)
    ensures a + [] == a
  {
  }

  lemma UpdateTwice<K, V>(m: map<K, V>, k: K, v: V, w: V)
    ensures m[k := v][k := w] == m[k := w]
  {
  }

  // ---------------------------------------------------------------------------
  // Sub-lists, and what Filter keeps

  /** `sub` is `s` with some elements deleted, the others kept in their order. */
  predicate IsSublist<T(==)>(sub: seq<T>, s: seq<T>)
  {
    if sub == [] then true
    else if s == [] then false
    else (sub[0] == s[0] && IsSublist(sub[1..], s[1..])) || IsSublist(sub, s[1..])
  }

  lemma {:induction false} FilterIsSublist<T(!new)>(p: T -> bool, s: seq<T>)
    ensures IsSublist(Filter(p, s), s)
  {
    if s != [] {
      FilterIsSublist(p, s[1..]);
      var tail := Filter(p, s[1..]);
      if p(s[0]) {
        assert Filter(p, s) == [s[0]] + tail;
        assert ([s[0]] + tail)[1..] == tail;
      } else {
        assert Filter(p, s) == tail;
        if tail != [] {
          assert IsSublist(tail, s[1..]);
        }
      }
    }
  }

  lemma {:induction false} FilterAppend<T(!new)>(p: T -> bool, a: seq<T>, b: seq<T>)
    ensures Filter(p, a + b) == Filter(p, a) + Filter(p, b)
  {
    if a == [] {
      assert a + b == b;
    } else {
      var head := if p(a[0]) then [a[0]] else [];
      assert (a + b)[0] == a[0];
      assert (a + b)[1..] == a[1..] + b;
      FilterAppend(p, a[1..], b);
      assert Filter(p, a + b) == head + (Filter(p, a[1..]) + Filter(p, b));
    }
  }

  /** `before` holds between every element of `s` and every later one. */
  predicate Pairwise<T>(s: seq<T>, before: (T, T) -> bool)
  {
    forall i, j :: 0 <= i < j < |s| ==> before(s[i], s[j])
  }

  lemma PairwiseTail<T>(s: seq<T>, before: (T, T) -> bool)
    requires Pairwise(s, before) && s != []
    ensures Pairwise(s[1..], before)
    ensures forall y :: y in s[1..] ==> before(s[0], y)
  {
    var t := s[1..];
    forall i, j | 0 <= i < j < |t|
      ensures before(t[i], t[j])
    {
      assert t[i] == s[i + 1] && t[j] == s[j + 1];
    }
    forall y | y in t
      ensures before(s[0], y)
    {
      var k :| 0 <= k < |t| && t[k] == y;
      assert s[k + 1] == y;
    }
  }

  lemma PairwiseCons<T>(x: T, s: seq<T>, before: (T, T) -> bool)
    requires Pairwise(s, before)
    requires forall y :: y in s ==> before(x, y)
    ensures Pairwise([x] + s, before)
  {
    var r := [x] + s;
    forall i, j | 0 <= i < j < |r|
      ensures before(r[i], r[j])
    {
      assert r[j] == s[j - 1];
      if i > 0 {
        assert r[i] == s[i - 1];
      }
    }
  }

  /** A relation that holds between every earlier and later element still holds after filtering. */
  lemma {:induction false} FilterKeepsOrder<T(!new)>(p: T -> bool, s: seq<T>, before: (T, T) -> bool)
    requires Pairwise(s, before)
    ensures Pairwise(Filter(p, s), before)
  {
    if s != [] {
      PairwiseTail(s, before);
      FilterKeepsOrder(p, s[1..], before);
      if p(s[0]) {
        PairwiseCons(s[0], Filter(p, s[1..]), before);
      }
    }
  }

  /** `[x for x in a if x not in b]`: list difference by equality, in the order of `a`. */
  function Minus<T(==, !new)>(a: seq<T>, b: seq<T>): seq<T>
  {
    Filter(x => x !in b, a)
  }

  /**
   * The difference holds exactly the elements of `a` missing from `b`, keeps
   * the order of `a`, and is empty exactly when every element of `a` is in `b`.
   */
  lemma MinusSpec<T(!new)>(a: seq<T>, b: seq<T>)
    ensures forall x :: x in Minus(a, b) <==> x in a && x !in b
    ensures IsSublist(Minus(a, b), a)
    ensures Minus(a, b) == [] <==> forall x :: x in a ==> x in b
  {
    FilterIsSublist(x => x !in b, a);
    if Minus(a, b) != [] {
      assert Minus(a, b)[0] in Minus(a, b);
    }
  }

  /** Taking away nothing leaves the list as it is. */
  lemma {:induction false} MinusNothing<T(!new)>(a: seq<T>)
    ensures Minus(a, []) == a
  {
    if a != [] {
      MinusNothing(a[1..]);
      assert a == [a[0]] + a[1..];
    }
  }

  /** Splitting by a predicate and its complement loses and invents nothing. */
  lemma {:induction false} FilterPartition<T(!new)>(p: T -> bool, q: T -> bool, s: seq<T>)
    requires forall x :: q(x) == !p(x)
    ensures multiset(Filter(p, s)) + multiset(Filter(q, s)) == multiset(s)
    ensures |Filter(p, s)| + |Filter(q, s)| == |s|
  {
    if s != [] {
      FilterPartition(p, q, s[1..]);
      assert s == [s[0]] + s[1..];
    }
  }

  // ---------------------------------------------------------------------------
  // Python's ordering of str values and `list.sort()`

  /** Python's `a <= b` on str: lexicographic by code point, a proper prefix first. */
  predicate StrLe(a: string, b: string)
  {
    |a| == 0 || (|b| != 0 && (a[0] < b[0] || (a[0] == b[0] && StrLe(a[1..], b[1..]))))
  }

  lemma {:induction false} StrLeTotal(a: string, b: string)
    ensures StrLe(a, b) || StrLe(b, a)
  {
    if |a| != 0 && |b| != 0 && a[0] == b[0] {
      StrLeTotal(a[1..], b[1..]);
    }
  }

  lemma {:induction false} StrLeTransitive(a: string, b: string, c: string)
    requires StrLe(a, b) && StrLe(b, c)
    ensures StrLe(a, c)
  {
    if |a| != 0 && a[0] == b[0] && b[0] == c[0] {
      StrLeTransitive(a[1..], b[1..], c[1..]);
    }
  }

  lemma {:induction false} StrLeAntisymmetric(a: string, b: string)
    requires StrLe(a, b) && StrLe(b, a)
    ensures a == b
  {
    if |a| != 0 {
      StrLeAntisymmetric(a[1..], b[1..]);
      assert a == [a[0]] + a[1..] && b == [b[0]] + b[1..];
    }
  }

  predicate Sorted(s: seq<string>)
  {
    forall i, j :: 0 <= i < j < |s| ==> StrLe(s[i], s[j])
  }

  function Insert(x: string, s: seq<string>): (r: seq<string>)
    ensures multiset(r) == multiset(s) + multiset{x}
  {
    if s == [] || StrLe(x, s[0]) then [x] + s
    else
      assert s == [s[0]] + s[1..];
      [s[0]] + Insert(x, s[1..])
  }

  /** `list.sort()` on a list of str (insertion sort; any correct sort gives the same list). */
  function SortStrings(s: seq<string>): seq<string>
  {
    if s == [] then [] else Insert(s[0], SortStrings(s[1..]))
  }

  lemma {:induction false} InsertSpec(x: string, s: seq<string>)
    requires Sorted(s)
    ensures Sorted(Insert(x, s))
  {
    if s == [] || StrLe(x, s[0]) {
      InsertFront(x, s);
    } else {
      SortedTail(s);
      InsertSpec(x, s[1..]);
      InsertBehind(x, s);
    }
  }

  lemma {:induction false} InsertDistinct(x: string, s: seq<string>)
    requires Distinct(s) && x !in s
    ensures Distinct(Insert(x, s))
  {
    if s == [] || StrLe(x, s[0]) {
      PairwiseCons(x, s, (a: string, b: string) => a != b);
    } else {
      var tail := Insert(x, s[1..]);
      DistinctTail(s);
      InsertDistinct(x, s[1..]);
      TailMember(s, s[0]);
      assert s[0] !in multiset(tail);
      PairwiseCons(s[0], tail, (a: string, b: string) => a != b);
    }
  }

  lemma InsertFront(x: string, s: seq<string>)
    requires Sorted(s) && (s == [] || StrLe(x, s[0]))
    ensures Sorted([x] + s)
  {
    var r := [x] + s;
    forall i, j | 0 <= i < j < |r|
      ensures StrLe(r[i], r[j])
    {
      if i == 0 && j > 1 {
        StrLeTransitive(x, s[0], s[j - 1]);
      }
    }
  }

  lemma SortedTail(s: seq<string>)
    requires Sorted(s) && s != []
    ensures Sorted(s[1..])
    ensures forall y :: y in s[1..] ==> StrLe(s[0], y)
  {
    PairwiseTail(s, StrLe);
  }

  lemma InsertBehind(x: string, s: seq<string>)
    requires Sorted(s) && s != [] && !StrLe(x, s[0])
    requires Sorted(Insert(x, s[1..]))
    ensures Sorted(Insert(x, s))
  {
    var tail := Insert(x, s[1..]);
    SortedTail(s);
    StrLeTotal(x, s[0]);
    forall y | y in tail
      ensures StrLe(s[0], y)
    {
      assert y in multiset(tail);
    }
    PairwiseCons(s[0], tail, StrLe);
  }

  lemma DistinctTail<T>(s: seq<T>)
    requires Distinct(s) && s != []
    ensures Distinct(s[1..])
  {
    PairwiseTail(s, (a: T, b: T) => a != b);
  }

  lemma {:induction false} SortStringsSpec(s: seq<string>)
    ensures Sorted(SortStrings(s))
    ensures multiset(SortStrings(s)) == multiset(s)
  {
    if s != [] {
      SortStringsSpec(s[1..]);
      InsertSpec(s[0], SortStrings(s[1..]));
      assert s == [s[0]] + s[1..];
    }
  }

  lemma {:induction false} SortStringsDistinct(s: seq<string>)
    requires Distinct(s)
    ensures Distinct(SortStrings(s))
  {
    if s != [] {
      var rest := SortStrings(s[1..]);
      DistinctTail(s);
      SortStringsDistinct(s[1..]);
      SortStringsSpec(s[1..]);
      TailMember(s, s[0]);
      assert s[0] !in multiset(rest);
      InsertDistinct(s[0], rest);
    }
  }

  /** A sorted list without duplicates is determined by its elements alone. */
  lemma {:induction false} SortedDistinctUnique(a: seq<string>, b: seq<string>)
    requires Sorted(a) && Distinct(a) && Sorted(b) && Distinct(b)
    requires forall x :: x in a <==> x in b
    ensures a == b
  {
    EmptyBoth(a, b);
    if a != [] {
      SameHead(a, b);
      SortedTail(a);
      SortedTail(b);
      DistinctTail(a);
      DistinctTail(b);
      forall x
        ensures x in a[1..] <==> x in b[1..]
      {
        TailMember(a, x);
        TailMember(b, x);
      }
      SortedDistinctUnique(a[1..], b[1..]);
      assert a == [a[0]] + a[1..] && b == [b[0]] + b[1..];
    }
  }

  lemma EmptyBoth<T>(a: seq<T>, b: seq<T>)
    requires forall x :: x in a <==> x in b
    ensures a == [] <==> b == []
  {
    if a != [] {
      assert a[0] in b;
    }
    if b != [] {
      assert b[0] in a;
    }
  }

  /** Two sorted lists with the same elements start with the same element. */
  lemma SameHead(a: seq<string>, b: seq<string>)
    requires Sorted(a) && Sorted(b) && a != [] && b != []
    requires forall x :: x in a <==> x in b
    ensures a[0] == b[0]
  {
    assert a[0] in b;
    var k :| 0 <= k < |b| && b[k] == a[0];
    assert b[0] in a;
    var m :| 0 <= m < |a| && a[m] == b[0];
    if k != 0 && m != 0 {
      assert StrLe(b[0], b[k]);
      assert StrLe(a[0], a[m]);
      StrLeAntisymmetric(a[0], b[0]);
    }
  }

  /** In a list without duplicates, the tail holds every element but the head. */
  lemma TailMember<T>(a: seq<T>, x: T)
    requires Distinct(a) && a != []
    ensures x in a[1..] <==> x in a && x != a[0]
  {
    if x in a[1..] {
      var i :| 0 <= i < |a| - 1 && a[1..][i] == x;
      assert a[i + 1] == x;
    }
    if x in a && x != a[0] {
      var i :| 0 <= i < |a| && a[i] == x;
      assert a[1..][i - 1] == x;
    }
  }
}
