/** The orders the store's listings use (`ORDER BY name ASC`,
    `ORDER BY addedAt DESC`) and a selection of table keys into such an
    order, standing in for the database's sort. */
module Ordering {

  /** `le` is total and transitive on `keys`. */
  ghost predicate TotalPreorderOn(keys: set<int>, le: (int, int) -> bool) {
    && (forall a, b :: a in keys && b in keys ==> le(a, b) || le(b, a))
    && (forall a, b, c :: a in keys && b in keys && c in keys && le(a, b) && le(b, c) ==> le(a, c))
  }

  ghost predicate SortedBy(ks: seq<int>, le: (int, int) -> bool) {
    forall i, j :: 0 <= i < j < |ks| ==> le(ks[i], ks[j])
  }

  ghost predicate Distinct(ks: seq<int>) {
    forall i, j :: 0 <= i < j < |ks| ==> ks[i] != ks[j]
  }

  lemma NonEmptyHasMember(s: set<int>)
    requires s != {}
    ensures exists x :: x in s
  {
    if forall x :: x !in s {
      assert false;
    }
  }

  /** A non-empty finite set has a least element under a total preorder. */
  lemma {:induction false} LeastExists(keys: set<int>, le: (int, int) -> bool)
    requires keys != {} && TotalPreorderOn(keys, le)
    ensures exists k :: k in keys && forall j :: j in keys ==> le(k, j)
    decreases |keys|
  {
    NonEmptyHasMember(keys);
    var x :| x in keys;
    if keys == {x} {
      assert le(x, x);
      assert forall j :: j in keys ==> le(x, j);
    } else {
      var rest := keys - {x};
      LeastExists(rest, le);
      var k :| k in rest && forall j :: j in rest ==> le(k, j);
      if le(k, x) {
        assert forall j :: j in keys ==> le(k, j);
      } else {
        assert le(x, k);
        assert forall j :: j in keys ==> le(x, j);
      }
    }
  }

  /** Lists every key exactly once, each no later than any key after it. */
  method SortKeys(keys: set<int>, le: (int, int) -> bool) returns (ks: seq<int>)
    requires TotalPreorderOn(keys, le)
    ensures SortedBy(ks, le) && Distinct(ks)
    ensures forall k :: k in ks <==> k in keys
    ensures |ks| == |keys|
  {
    ks := [];
    var rest := keys;
    while rest != {}
      invariant rest <= keys
      invariant forall k :: k in ks <==> k in keys && k !in rest
      invariant SortedBy(ks, le) && Distinct(ks)
      invariant forall i, j :: 0 <= i < |ks| && j in rest ==> le(ks[i], j)
      invariant |ks| + |rest| == |keys|
      decreases |rest|
    {
      LeastExists(rest, le);
      var k :| k in rest && forall j :: j in rest ==> le(k, j);
      AppendLeast(ks, rest, k, le);
      ks := ks + [k];
      rest := rest - {k};
    }
  }

  /** Moving a least remaining key to the end of the list keeps it sorted,
      free of repeats and below every key still remaining. */
  lemma AppendLeast(ks: seq<int>, rest: set<int>, k: int, le: (int, int) -> bool)
    requires SortedBy(ks, le) && Distinct(ks)
    requires forall i, j :: 0 <= i < |ks| && j in rest ==> le(ks[i], j)
    requires forall x :: x in ks ==> x !in rest
    requires k in rest && forall j :: j in rest ==> le(k, j)
    ensures SortedBy(ks + [k], le) && Distinct(ks + [k])
    ensures forall i, j :: 0 <= i < |ks + [k]| && j in rest - {k} ==> le((ks + [k])[i], j)
  {
    var n := ks + [k];
    assert forall i :: 0 <= i < |ks| ==> n[i] == ks[i] && ks[i] in ks;
  }

  /** Code-point order on strings, as SQLite's default BINARY collation
      compares UTF-8 text. */
  predicate StrLessEq(a: string, b: string) {
    a == [] || (b != [] && (a[0] < b[0] || (a[0] == b[0] && StrLessEq(a[1..], b[1..]))))
  }

  lemma {:induction false} StrLessEqTotal(a: string, b: string)
    ensures StrLessEq(a, b) || StrLessEq(b, a)
  {
    if a != [] && b != [] && a[0] == b[0] {
      StrLessEqTotal(a[1..], b[1..]);
    }
  }

  lemma {:induction false} StrLessEqTransitive(a: string, b: string, c: string)
    requires StrLessEq(a, b) && StrLessEq(b, c)
    ensures StrLessEq(a, c)
  {
    if a != [] && b != [] && c != [] && a[0] == b[0] && b[0] == c[0] {
      StrLessEqTransitive(a[1..], b[1..], c[1..]);
    }
  }

  lemma {:induction false} StrLessEqAntisymmetric(a: string, b: string)
    requires StrLessEq(a, b) && StrLessEq(b, a)
    ensures a == b
  {
    if a != [] && b != [] {
      StrLessEqAntisymmetric(a[1..], b[1..]);
    }
  }
}
