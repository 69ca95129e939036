/** Sorting, as the database and the runtime do it: by a total order, keeping every element. */
module Ordering {

  /** The runtime's order on strings: by code point, a prefix first. */
  predicate StringLe(a: string, b: string) {
    a == "" || (b != "" && (a[0] < b[0] || (a[0] == b[0] && StringLe(a[1..], b[1..]))))
  }

  predicate StringLt(a: string, b: string) {
    a != b && StringLe(a, b)
  }

  lemma {:induction false} StringLeTotal(a: string, b: string)
    ensures StringLe(a, b) || StringLe(b, a)
    ensures StringLe(a, b) && StringLe(b, a) ==> a == b
    ensures a == b ==> StringLe(a, b)
  {
    if a != "" && b != "" && a[0] == b[0] {
      StringLeTotal(a[1..], b[1..]);
      assert a == [a[0]] + a[1..] && b == [b[0]] + b[1..];
    }
  }

  /** Strictly before: a proper beginning, or smaller at the first character that differs. */
  ghost predicate Precedes(a: string, b: string) {
    a < b || exists k :: 0 <= k < |a| && k < |b| && DifferFirstAt(a, b, k) && a[k] < b[k]
  }

  ghost predicate DifferFirstAt(a: string, b: string, k: nat)
    requires k < |a| && k < |b|
  {
    a[..k] == b[..k] && a[k] != b[k]
  }

  lemma PrecedesInTail(a: string, b: string)
    requires a != "" && b != "" && a[0] == b[0]
    ensures Precedes(a, b) <==> Precedes(a[1..], b[1..])
  {
    assert a < b <==> a[1..] < b[1..];
    if k :| 0 <= k < |a| && k < |b| && DifferFirstAt(a, b, k) && a[k] < b[k] {
      assert a[1..][..k - 1] == a[..k][1..] && b[1..][..k - 1] == b[..k][1..];
      assert DifferFirstAt(a[1..], b[1..], k - 1);
    }
    if k :| 0 <= k < |a[1..]| && k < |b[1..]| && DifferFirstAt(a[1..], b[1..], k) && a[1..][k] < b[1..][k] {
      assert a[..k + 1] == [a[0]] + a[1..][..k] && b[..k + 1] == [b[0]] + b[1..][..k];
      assert DifferFirstAt(a, b, k + 1);
    }
  }

  lemma SameStartSameHead(a: string, b: string, k: nat)
    requires k <= |a| && k <= |b| && a[..k] == b[..k]
    ensures k > 0 ==> a[0] == b[0]
  {
    assert k > 0 ==> a[..k][0] == a[0] && b[..k][0] == b[0];
  }

  /** The order on strings is the one of a dictionary, by code point. */
  lemma {:induction false} StringOrderIsLexicographic(a: string, b: string)
    ensures StringLt(a, b) <==> Precedes(a, b)
  {
    if a == "" || b == "" {
    } else if a[0] == b[0] {
      StringOrderIsLexicographic(a[1..], b[1..]);
      PrecedesInTail(a, b);
      assert a == [a[0]] + a[1..] && b == [b[0]] + b[1..];
    } else {
      assert a[..0] == b[..0] && DifferFirstAt(a, b, 0);
      forall k: nat | k < |a| && k < |b| && a[..k] == b[..k] ensures k == 0 {
        SameStartSameHead(a, b, k);
      }
    }
  }

  lemma {:induction false} StringLeTransitive(a: string, b: string, c: string)
    requires StringLe(a, b) && StringLe(b, c)
    ensures StringLe(a, c)
  {
    if a != "" && a[0] == b[0] == c[0] {
      StringLeTransitive(a[1..], b[1..], c[1..]);
    }
  }

  /** Total, transitive, and antisymmetric: enough for sorting to have one answer. */
  ghost predicate TotalOrder<T(!new)>(le: (T, T) -> bool) {
    && (forall a, b :: le(a, b) || le(b, a))
    && (forall a, b :: le(a, b) && le(b, a) ==> a == b)
    && (forall a, b, c :: le(a, b) && le(b, c) ==> le(a, c))
  }

  lemma {:induction false} StringOrderIsTotal()
    ensures TotalOrder(StringLe)
  {
    forall a, b ensures (StringLe(a, b) || StringLe(b, a)) && (StringLe(a, b) && StringLe(b, a) ==> a == b) {
      StringLeTotal(a, b);
    }
    forall a, b, c | StringLe(a, b) && StringLe(b, c) ensures StringLe(a, c) {
      StringLeTransitive(a, b, c);
    }
  }

  ghost predicate SortedBy<T>(le: (T, T) -> bool, s: seq<T>) {
    forall i, j :: 0 <= i < j < |s| ==> le(s[i], s[j])
  }

  function Insert<T>(le: (T, T) -> bool, x: T, s: seq<T>): (r: seq<T>)
    ensures multiset(r) == multiset(s) + multiset{x}
  {
    if s == [] then [x]
    else if le(x, s[0]) then [x] + s
    else
      assert s == [s[0]] + s[1..];
      [s[0]] + Insert(le, x, s[1..])
  }

  function Sort<T>(le: (T, T) -> bool, s: seq<T>): (r: seq<T>)
    ensures multiset(r) == multiset(s)
  {
    if s == [] then []
    else
      assert s == [s[0]] + s[1..];
      Insert(le, s[0], Sort(le, s[1..]))
  }

  /** Sorting keeps length and membership. */
  lemma SortKeepsElements<T>(le: (T, T) -> bool, s: seq<T>)
    ensures |Sort(le, s)| == |s|
    ensures forall x :: x in Sort(le, s) <==> x in s
  {
    var r := Sort(le, s);
    assert |r| == |multiset(r)| == |multiset(s)| == |s|;
    forall x ensures x in r <==> x in s {
      assert x in r <==> x in multiset(r);
      assert x in s <==> x in multiset(s);
    }
  }

  lemma InsertMembers<T>(le: (T, T) -> bool, x: T, s: seq<T>, y: T)
    requires y in Insert(le, x, s)
    ensures y == x || y in s
  {
    assert y in multiset(Insert(le, x, s));
    assert y in multiset(s) + multiset{x};
    assert y != x ==> y in multiset(s);
  }

  lemma {:induction false} InsertIsSorted<T(!new)>(le: (T, T) -> bool, x: T, s: seq<T>)
    requires TotalOrder(le) && SortedBy(le, s)
    ensures SortedBy(le, Insert(le, x, s))
  {
    if s == [] {
    } else if le(x, s[0]) {
      FrontOfSorted(le, x, s);
    } else {
      var tail := s[1..];
      InsertIsSorted(le, x, tail);
      var rest := Insert(le, x, tail);
      forall y | y in rest ensures le(s[0], y) {
        InsertMembers(le, x, tail, y);
        if y in tail {
          var k :| 0 <= k < |tail| && tail[k] == y;
          assert y == s[k + 1];
        }
      }
      FrontOfBounded(le, s[0], rest);
    }
  }

  lemma FrontOfBounded<T(!new)>(le: (T, T) -> bool, x: T, s: seq<T>)
    requires SortedBy(le, s) && forall y :: y in s ==> le(x, y)
    ensures SortedBy(le, [x] + s)
  {
    assert forall j :: 0 <= j < |s| ==> s[j] in s;
  }

  lemma FrontOfSorted<T(!new)>(le: (T, T) -> bool, x: T, s: seq<T>)
    requires TotalOrder(le) && SortedBy(le, s) && s != [] && le(x, s[0])
    ensures SortedBy(le, [x] + s)
  {
    forall j | 0 <= j < |s| ensures le(x, s[j]) {
      if j > 0 { assert le(s[0], s[j]); }
    }
  }

  lemma {:induction false} SortIsSorted<T(!new)>(le: (T, T) -> bool, s: seq<T>)
    requires TotalOrder(le)
    ensures SortedBy(le, Sort(le, s))
  {
    if s != [] {
      SortIsSorted(le, s[1..]);
      InsertIsSorted(le, s[0], Sort(le, s[1..]));
    }
  }

  /** Sorting what is sorted changes nothing. */
  lemma {:induction false} SortedIsFixed<T>(le: (T, T) -> bool, s: seq<T>)
    requires SortedBy(le, s)
    ensures Sort(le, s) == s
  {
    if s != [] {
      var tail := s[1..];
      assert SortedBy(le, tail);
      SortedIsFixed(le, tail);
      assert s == [s[0]] + tail;
      assert tail != [] ==> tail[0] == s[1] && le(s[0], tail[0]);
    }
  }

  ghost predicate Antisymmetric<T(!new)>(le: (T, T) -> bool) {
    forall a, b :: le(a, b) && le(b, a) ==> a == b
  }

  lemma SortedSameHead<T(!new)>(le: (T, T) -> bool, a: seq<T>, b: seq<T>)
    requires Antisymmetric(le) && SortedBy(le, a) && SortedBy(le, b) && multiset(a) == multiset(b) && a != []
    ensures b != [] && a[0] == b[0]
  {
    assert |a| == |multiset(a)| == |multiset(b)| == |b|;
    assert a[0] in multiset(b) && b[0] in multiset(a);
    var i :| 0 <= i < |b| && b[i] == a[0];
    var j :| 0 <= j < |a| && a[j] == b[0];
    if i > 0 && j > 0 {
      assert le(b[0], b[i]) && le(a[0], a[j]);
    }
  }

  lemma SortedTail<T>(le: (T, T) -> bool, s: seq<T>)
    requires SortedBy(le, s) && s != []
    ensures SortedBy(le, s[1..])
  {
  }

  lemma SameTails<T>(a: seq<T>, b: seq<T>)
    requires a != [] && b != [] && a[0] == b[0] && multiset(a) == multiset(b)
    ensures multiset(a[1..]) == multiset(b[1..])
  {
    assert a == [a[0]] + a[1..] && b == [b[0]] + b[1..];
    assert multiset(a[1..]) == multiset(a) - multiset{a[0]};
    assert multiset(b[1..]) == multiset(b) - multiset{b[0]};
  }

  /** Sorted sequences with the same elements are the same. */
  lemma {:induction false} SortedIsUnique<T(!new)>(le: (T, T) -> bool, a: seq<T>, b: seq<T>)
    requires Antisymmetric(le) && SortedBy(le, a) && SortedBy(le, b) && multiset(a) == multiset(b)
    ensures a == b
  {
    if a == [] {
      assert |multiset(b)| == 0;
    } else {
      SortedSameHead(le, a, b);
      SameTails(a, b);
      SortedTail(le, a);
      SortedTail(le, b);
      SortedIsUnique(le, a[1..], b[1..]);
      assert a == [a[0]] + a[1..] && b == [b[0]] + b[1..];
    }
  }

  lemma SortIsCanonical<T(!new)>(le: (T, T) -> bool, a: seq<T>, b: seq<T>)
    requires TotalOrder(le) && multiset(a) == multiset(b)
    ensures Sort(le, a) == Sort(le, b)
  {
    SortIsSorted(le, a);
    SortIsSorted(le, b);
    SortedIsUnique(le, Sort(le, a), Sort(le, b));
  }

  /** A repeated position shows twice in the multiset. */
  lemma RepeatsCountTwice<T>(s: seq<T>, i: nat, j: nat)
    requires i < j < |s|
    ensures s[i] == s[j] ==> multiset(s)[s[i]] >= 2
  {
    assert s == s[..i] + [s[i]] + s[i + 1..j] + [s[j]] + s[j + 1..];
  }
}
