/**
 * Ordering and sorting used where the source calls `sort.Ints` and
 * `sort.Strings`. The library's algorithm is not visible to the model; it
 * is represented by an insertion sort with the same result.
 */
module Sorting {

  /** lt is a strict total order: irreflexive, transitive and total. */
  ghost predicate IsStrictOrder<T(!new)>(lt: (T, T) -> bool) {
    && (forall a :: !lt(a, a))
    && (forall a, b, c :: lt(a, b) && lt(b, c) ==> lt(a, c))
    && (forall a, b :: a != b ==> lt(a, b) || lt(b, a))
  }

  /** Strictly ascending: sorted and free of duplicates. */
  predicate Ascending<T>(s: seq<T>, lt: (T, T) -> bool) {
    forall i, j :: 0 <= i < j < |s| ==> lt(s[i], s[j])
  }

  /** Sorted, duplicates allowed. */
  predicate NonDescending<T>(s: seq<T>, lt: (T, T) -> bool) {
    forall i, j :: 0 <= i < j < |s| ==> !lt(s[j], s[i])
  }

  predicate Distinct<T(==)>(s: seq<T>) {
    forall i, j :: 0 <= i < j < |s| ==> s[i] != s[j]
  }

  function Insert<T>(x: T, s: seq<T>, lt: (T, T) -> bool): (r: seq<T>)
    ensures multiset(r) == multiset(s) + multiset{x}
  {
    if s == [] then [x]
    else if lt(s[0], x) then
      assert s == [s[0]] + s[1..];
      [s[0]] + Insert(x, s[1..], lt)
    else [x] + s
  }

  /** Every element after the head of an insertion is x or an element of s. */
  lemma InsertFrom<T>(x: T, s: seq<T>, lt: (T, T) -> bool, y: T)
    requires y in Insert(x, s, lt)
    ensures y == x || y in s
  {
    assert y in multiset(Insert(x, s, lt));
  }

  lemma {:induction false} InsertNonDescending<T(!new)>(x: T, s: seq<T>, lt: (T, T) -> bool)
    requires IsStrictOrder(lt) && NonDescending(s, lt)
    ensures NonDescending(Insert(x, s, lt), lt)
  {
    if s != [] && lt(s[0], x) {
      var t := Insert(x, s[1..], lt);
      InsertNonDescending(x, s[1..], lt);
      forall k | 0 <= k < |t| ensures !lt(t[k], s[0]) {
        InsertFrom(x, s[1..], lt, t[k]);
        if t[k] != x {
          var j :| 0 <= j < |s[1..]| && s[1..][j] == t[k];
          assert s[j + 1] == t[k];
        }
      }
      var r := [s[0]] + t;
      assert forall i, j :: 0 < i < j < |r| ==> r[i] == t[i - 1] && r[j] == t[j - 1];
    }
  }

  lemma {:induction false} InsertAscending<T(!new)>(x: T, s: seq<T>, lt: (T, T) -> bool)
    requires IsStrictOrder(lt) && Ascending(s, lt) && x !in s
    ensures Ascending(Insert(x, s, lt), lt)
  {
    if s == [] {
    } else if lt(s[0], x) {
      var t := Insert(x, s[1..], lt);
      InsertAscending(x, s[1..], lt);
      forall k | 0 <= k < |t| ensures lt(s[0], t[k]) {
        InsertFrom(x, s[1..], lt, t[k]);
        if t[k] != x {
          var j :| 0 <= j < |s[1..]| && s[1..][j] == t[k];
          assert s[j + 1] == t[k];
        }
      }
      var r := [s[0]] + t;
      assert forall i, j :: 0 < i < j < |r| ==> r[i] == t[i - 1] && r[j] == t[j - 1];
    } else {
      assert x != s[0];
      var r := [x] + s;
      assert forall i, j :: 0 < i < j < |r| ==> r[i] == s[i - 1] && r[j] == s[j - 1];
    }
  }

  /** The sorted arrangement of s. */
  function Sort<T(!new)>(s: seq<T>, lt: (T, T) -> bool): (r: seq<T>)
    requires IsStrictOrder(lt)
    ensures multiset(r) == multiset(s) && |r| == |s|
    ensures NonDescending(r, lt)
    ensures Distinct(s) ==> Ascending(r, lt)
  {
    if s == [] then []
    else
      assert s == [s[0]] + s[1..];
      var t := Sort(s[1..], lt);
      InsertNonDescending(s[0], t, lt);
      assert s[0] in t <==> s[0] in s[1..] by {
        assert s[0] in t <==> s[0] in multiset(t);
      }
      assert Distinct(s) ==> Distinct(s[1..]);
      assert Distinct(s) ==> Ascending(Insert(s[0], t, lt), lt) by {
        if Distinct(s) {
          InsertAscending(s[0], t, lt);
        }
      }
      Insert(s[0], t, lt)
  }

  /** Two strictly ascending sequences with the same elements are equal. */
  lemma {:induction false} AscendingUnique<T(!new)>(a: seq<T>, b: seq<T>, lt: (T, T) -> bool)
    requires IsStrictOrder(lt)
    requires Ascending(a, lt) && Ascending(b, lt)
    requires forall y :: y in a <==> y in b
    ensures a == b
  {
    if a != [] && b != [] {
      assert b[0] in b && a[0] in a;
      assert a[0] == b[0] by {
        var i :| 0 <= i < |a| && a[i] == b[0];
        var j :| 0 <= j < |b| && b[j] == a[0];
      }
      forall y ensures y in a[1..] <==> y in b[1..] {
        if y in a[1..] {
          var i :| 0 <= i < |a[1..]| && a[1..][i] == y;
          assert lt(a[0], a[i + 1]);
          assert y in b;
          var k :| 0 <= k < |b| && b[k] == y;
          assert k != 0;
          assert b[1..][k - 1] == y;
        }
        if y in b[1..] {
          var i :| 0 <= i < |b[1..]| && b[1..][i] == y;
          assert lt(b[0], b[i + 1]);
          assert y in a;
          var k :| 0 <= k < |a| && a[k] == y;
          assert k != 0;
          assert a[1..][k - 1] == y;
        }
      }
      AscendingUnique(a[1..], b[1..], lt);
      assert a == [a[0]] + a[1..] && b == [b[0]] + b[1..];
    } else {
      NoMemberEmpty(a);
      NoMemberEmpty(b);
    }
  }

  lemma NoMemberEmpty<T>(s: seq<T>)
    ensures (forall y :: y !in s) ==> s == []
  {
    if s != [] {
      assert s[0] in s;
    }
  }

  function IntLess(a: int, b: int): bool { a < b }

  lemma IntOrder()
    ensures IsStrictOrder(IntLess)
  {
  }

  /** Byte-wise (code point) order on strings, as Go's `<` on strings. */
  predicate LessStr(a: string, b: string)
    decreases |a|
  {
    if a == [] then b != []
    else if b == [] then false
    else if a[0] != b[0] then a[0] < b[0]
    else LessStr(a[1..], b[1..])
  }

  lemma {:induction false} LessStrIrreflexive(a: string)
    ensures !LessStr(a, a)
  {
    if a != [] {
      LessStrIrreflexive(a[1..]);
    }
  }

  lemma {:induction false} LessStrTransitive(a: string, b: string, c: string)
    requires LessStr(a, b) && LessStr(b, c)
    ensures LessStr(a, c)
  {
    if a != [] && b != [] && c != [] && a[0] == b[0] && b[0] == c[0] {
      LessStrTransitive(a[1..], b[1..], c[1..]);
    }
  }

  lemma {:induction false} LessStrTotal(a: string, b: string)
    requires a != b
    ensures LessStr(a, b) || LessStr(b, a)
  {
    if a != [] && b != [] && a[0] == b[0] {
      assert a == [a[0]] + a[1..] && b == [b[0]] + b[1..];
      LessStrTotal(a[1..], b[1..]);
    }
  }

  /** The order sort.Strings uses is a strict total order. */
  lemma StringOrder()
    ensures IsStrictOrder(LessStr)
  {
    forall a ensures !LessStr(a, a) {
      LessStrIrreflexive(a);
    }
    forall a, b, c | LessStr(a, b) && LessStr(b, c) ensures LessStr(a, c) {
      LessStrTransitive(a, b, c);
    }
    forall a, b | a != b ensures LessStr(a, b) || LessStr(b, a) {
      LessStrTotal(a, b);
    }
  }
}
