/** The paging that both search queries share: clamped size and number, LIMIT and OFFSET. */
module Paging {
  import opened Wrappers

  const INT_MAX: int := 2147483647

  /** Ten by default, and never outside 1 to 100. */
  function PageSize(requested: Option<int>): (size: int)
    ensures 1 <= size <= 100
    ensures requested.None? ==> size == 10
    ensures requested.Some? && 1 <= requested.value <= 100 ==> size == requested.value
    ensures requested.Some? && requested.value > 100 ==> size == 100
    ensures requested.Some? && requested.value < 1 ==> size == 1
  {
    var n := if requested.None? then 10 else requested.value;
    var capped := if n < 100 then n else 100;
    if capped > 1 then capped else 1
  }

  function PageNumber(requested: Option<int>): (number: int)
    ensures number >= 0
    ensures requested.Some? && requested.value >= 0 ==> number == requested.value
    ensures requested.None? || requested.value < 0 ==> number == 0
  {
    var n := if requested.None? then 0 else requested.value;
    if n > 0 then n else 0
  }

  /** The OFFSET is an int4 product, so it is out of range past 2^31 - 1. */
  predicate OffsetInRange(size: nat, number: nat) { size * number <= INT_MAX }

  function Min(a: int, b: int): int { if a < b then a else b }

  /** LIMIT size OFFSET size * number. */
  function Page<T>(s: seq<T>, size: nat, number: nat): seq<T> {
    var offset := size * number;
    if offset >= |s| then [] else s[offset..Min(offset + size, |s|)]
  }

  /** The first `n` pages, one after the other. */
  function Pages<T>(s: seq<T>, size: nat, n: nat): seq<T> {
    if n == 0 then [] else Pages(s, size, n - 1) + Page(s, size, n - 1)
  }

  lemma {:induction false} PagesTile<T>(s: seq<T>, size: nat, n: nat)
    ensures Pages(s, size, n) == s[..Min(size * n, |s|)]
  {
    if n > 0 {
      PagesTile(s, size, n - 1);
      assert size * n == size * (n - 1) + size;
    }
  }

  /** Newest first, each id exactly once; ties may come in any order. */
  ghost predicate NewestFirst(order: seq<nat>, ids: set<nat>, createdAt: map<nat, int>)
    requires ids <= createdAt.Keys
  {
    && (forall i :: 0 <= i < |order| ==> order[i] in ids)
    && (forall x <- ids :: x in order)
    && (forall i, j :: 0 <= i < j < |order| ==> order[i] != order[j])
    && (forall i, j :: 0 <= i < j < |order| ==>
          order[i] in ids && order[j] in ids && createdAt[order[i]] >= createdAt[order[j]])
  }

  lemma {:induction false} DistinctCount(order: seq<nat>, ids: set<nat>)
    requires forall i :: 0 <= i < |order| ==> order[i] in ids
    requires forall x <- ids :: x in order
    requires forall i, j :: 0 <= i < j < |order| ==> order[i] != order[j]
    ensures |order| == |ids|
  {
    if order == [] {
      assert ids == {};
    } else {
      var x := order[0];
      forall y <- ids - {x} ensures y in order[1..] {
        var i :| 0 <= i < |order| && order[i] == y;
        assert order[1..][i - 1] == y;
      }
      DistinctCount(order[1..], ids - {x});
    }
  }

  /** Every finite set has such an order, so the theorems about one are not empty. */
  lemma {:induction false} OrderExists(ids: set<nat>, createdAt: map<nat, int>) returns (order: seq<nat>)
    requires ids <= createdAt.Keys
    ensures NewestFirst(order, ids, createdAt)
    decreases |ids|
  {
    if ids == {} {
      order := [];
    } else {
      var newest := Newest(ids, createdAt);
      var rest := OrderExists(ids - {newest}, createdAt);
      order := [newest] + rest;
      forall x <- ids ensures x in order {
        if x != newest { assert x in rest; }
      }
    }
  }

  lemma {:induction false} Newest(ids: set<nat>, createdAt: map<nat, int>) returns (x: nat)
    requires ids != {} && ids <= createdAt.Keys
    ensures x in ids && forall y <- ids :: createdAt[y] <= createdAt[x]
    decreases |ids|
  {
    x :| x in ids;
    if ids != {x} {
      var y := Newest(ids - {x}, createdAt);
      if createdAt[y] > createdAt[x] { x := y; }
    }
  }
}
