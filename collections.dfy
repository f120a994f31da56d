/** Sequences, dictionary enumeration and ordering as LINQ and the .NET
    collections provide them. */
module Collections {

  /** A string comparer: `le(a, b)` says that `a` sorts no later than `b`.
      `OrderBy` uses the culture-sensitive default comparer, which the model
      leaves abstract: every property below holds for any total order. */
  type Comparer = (string, string) -> bool

  ghost predicate TotalOrder(le: Comparer) {
    && (forall a, b :: le(a, b) || le(b, a))
    && (forall a, b :: le(a, b) && le(b, a) ==> a == b)
    && (forall a, b, c :: le(a, b) && le(b, c) ==> le(a, c))
  }

  /** Ascending and free of duplicates. */
  ghost predicate StrictlySorted(s: seq<string>, le: Comparer) {
    forall i, j :: 0 <= i < j < |s| ==> le(s[i], s[j]) && s[i] != s[j]
  }

  predicate NoDuplicates<T(==)>(s: seq<T>) {
    forall i, j :: 0 <= i < j < |s| ==> s[i] != s[j]
  }

  /** `ks` lists every element of `keys` exactly once, in some order: what
      enumerating a dictionary's keys yields. */
  ghost predicate Enumerates(ks: seq<string>, keys: set<string>) {
    NoDuplicates(ks) && forall k :: k in ks <==> k in keys
  }

  /** Inserts `x` into an ascending duplicate-free sequence. */
  function Insert(x: string, s: seq<string>, le: Comparer): (r: seq<string>)
    ensures forall y :: y in r <==> y == x || y in s
    ensures TotalOrder(le) && StrictlySorted(s, le) ==> StrictlySorted(r, le)
  {
    if s == [] then [x]
    else if x == s[0] then s
    else if le(x, s[0]) then [x] + s
    else
      var rest := Insert(x, s[1..], le);
      assert TotalOrder(le) && StrictlySorted(s, le) ==>
        forall k :: 0 <= k < |rest| ==> le(s[0], rest[k]) && s[0] != rest[k] by {
        if TotalOrder(le) && StrictlySorted(s, le) {
          forall k | 0 <= k < |rest| ensures le(s[0], rest[k]) && s[0] != rest[k] {
            if rest[k] != x {
              assert rest[k] in rest && rest[k] in s[1..];
              var i :| 0 <= i < |s[1..]| && s[1..][i] == rest[k];
              assert s[i + 1] == rest[k];
            }
          }
        }
      }
      [s[0]] + rest
  }

  /** `xs.Distinct().OrderBy(x => x)`: the distinct elements of `xs`, ascending. */
  function SortedDistinct(xs: seq<string>, le: Comparer): (r: seq<string>)
    ensures forall y :: y in r <==> y in xs
    ensures TotalOrder(le) ==> StrictlySorted(r, le)
  {
    if xs == [] then []
    else Insert(xs[|xs| - 1], SortedDistinct(xs[..|xs| - 1], le), le)
  }

  /** Under a total order there is only one ascending duplicate-free
      arrangement of a set of strings. */
  lemma {:induction false} SortedUnique(a: seq<string>, b: seq<string>, le: Comparer)
    requires TotalOrder(le)
    requires StrictlySorted(a, le) && StrictlySorted(b, le)
    requires forall y :: y in a <==> y in b
    ensures a == b
  {
    assert a != [] ==> a[0] in b;
    assert b != [] ==> b[0] in a;
    if a != [] && b != [] {
      assert a[0] == b[0] by {
        assert forall k :: 0 <= k < |a| ==> le(a[0], a[k]);
        assert forall k :: 0 <= k < |b| ==> le(b[0], b[k]);
        assert a[0] in b && b[0] in a;
      }
      forall y ensures y in a[1..] <==> y in b[1..] {
        if y in a[1..] {
          var j :| 1 <= j < |a| && a[j] == y;
          assert y in a && y in b;
          var i :| 0 <= i < |b| && b[i] == y;
          assert i != 0;
          assert b[1..][i - 1] == y;
        }
        if y in b[1..] {
          var j :| 1 <= j < |b| && b[j] == y;
          assert y in b && y in a;
          var i :| 0 <= i < |a| && a[i] == y;
          assert i != 0;
          assert a[1..][i - 1] == y;
        }
      }
      SortedUnique(a[1..], b[1..], le);
      assert a == [a[0]] + a[1..] && b == [b[0]] + b[1..];
    }
  }

  /** Sorting an enumeration of a set gives an ascending enumeration of it. */
  lemma SortedEnumeration(ks: seq<string>, keys: set<string>, le: Comparer)
    requires TotalOrder(le) && Enumerates(ks, keys)
    ensures Enumerates(SortedDistinct(ks, le), keys) && StrictlySorted(SortedDistinct(ks, le), le)
  {
  }

  /** `Distinct().OrderBy()` does not depend on the order in which its input
      was enumerated. */
  lemma SortedDistinctDeterministic(xs: seq<string>, ys: seq<string>, le: Comparer)
    requires TotalOrder(le)
    requires forall y :: y in xs <==> y in ys
    ensures SortedDistinct(xs, le) == SortedDistinct(ys, le)
  {
    SortedUnique(SortedDistinct(xs, le), SortedDistinct(ys, le), le);
  }

  /** Enumerating a dictionary's keys: every key once, in an order the model
      does not fix (.NET promises none once entries have been removed). */
  method EnumerateKeys<V>(m: map<string, V>) returns (ks: seq<string>)
    ensures Enumerates(ks, m.Keys)
  {
    ks := [];
    var rest := m.Keys;
    while rest != {}
      invariant NoDuplicates(ks)
      invariant forall k :: k in m.Keys <==> k in ks || k in rest
      invariant forall k :: k in ks ==> k !in rest
      decreases rest
    {
      var k :| k in rest;
      ks := ks + [k];
      rest := rest - {k};
    }
  }

  /** `Collection<T>.Remove(x)`: drops the first occurrence of `x`, if any. */
  function RemoveFirst<T(==)>(s: seq<T>, x: T): (r: seq<T>)
    ensures x !in s ==> r == s
    ensures x in s ==> |r| == |s| - 1
    ensures forall i :: 0 <= i < |r| ==> r[i] in s
    ensures forall i :: 0 <= i < |s| && s[i] != x ==> s[i] in r
    ensures NoDuplicates(s) ==> NoDuplicates(r) && x !in r
  {
    if s == [] then []
    else if s[0] == x then s[1..]
    else [s[0]] + RemoveFirst(s[1..], x)
  }

  /** The position of the first occurrence of `x` in `s`. */
  function FirstIndex<T(==)>(s: seq<T>, x: T): (i: nat)
    requires x in s
    ensures i < |s| && s[i] == x && x !in s[..i]
  {
    if s[0] == x then 0 else 1 + FirstIndex(s[1..], x)
  }

  /** Dropping position `j` of a tail is dropping position `j + 1` of the
      whole sequence. */
  lemma DropAfterHead<T>(s: seq<T>, j: nat)
    requires j + 1 < |s|
    ensures [s[0]] + (s[1..][..j] + s[1..][j + 1..]) == s[..j + 1] + s[j + 2..]
  {
    assert s[..j + 1] == [s[0]] + s[1..][..j];
    assert s[j + 2..] == s[1..][j + 1..];
  }

  /** `RemoveFirst` drops exactly the first occurrence of `x` and keeps the
      other elements in their order. */
  lemma {:induction false} RemoveFirstAt<T>(s: seq<T>, x: T)
    requires x in s
    ensures RemoveFirst(s, x) == s[..FirstIndex(s, x)] + s[FirstIndex(s, x) + 1..]
  {
    if s[0] == x {
      assert s[..0] + s[1..] == s[1..];
    } else {
      RemoveFirstAt(s[1..], x);
      DropAfterHead(s, FirstIndex(s[1..], x));
    }
  }
}
