/** The slice helpers of the storage layer (`contains`, `replaceInSlice`) and the
    facts about duplicate-free sequences that the reviewer lists rely on. */
module Slices {

  import opened Models

  /** No element occurs twice. */
  predicate Distinct<T(==)>(s: seq<T>) {
    forall i, j :: 0 <= i < j < |s| ==> s[i] != s[j]
  }

  /** The elements of a sequence, as a set. */
  function Elems<T>(s: seq<T>): set<T> {
    set x | x in s
  }

  /** A duplicate-free sequence has as many elements as its set. */
  lemma {:induction false} DistinctCardinality<T>(s: seq<T>)
    requires Distinct(s)
    ensures |Elems(s)| == |s|
    decreases |s|
  {
    if s != [] {
      var init := s[..|s| - 1];
      assert Distinct(init);
      DistinctCardinality(init);
      assert Elems(s) == Elems(init) + {s[|s| - 1]};
      assert s[|s| - 1] !in Elems(init);
    }
  }

  /** In a duplicate-free sequence every value occurs at most once. */
  lemma {:induction false} DistinctMultiplicity<T>(s: seq<T>, x: T)
    requires Distinct(s)
    ensures multiset(s)[x] <= 1
    decreases |s|
  {
    if s != [] {
      var init := s[..|s| - 1];
      assert s == init + [s[|s| - 1]];
      assert Distinct(init);
      DistinctMultiplicity(init, x);
      if x == s[|s| - 1] {
        assert x !in init;
      }
    }
  }

  /** Taking elements of a duplicate-free sequence, each at most as often as it
      occurs there, gives a duplicate-free sequence. */
  lemma SubMultisetOfDistinct<T>(r: seq<T>, s: seq<T>)
    requires Distinct(s)
    requires multiset(r) <= multiset(s)
    ensures Distinct(r)
  {
    forall i, j | 0 <= i < j < |r|
      ensures r[i] != r[j]
    {
      if r[i] == r[j] {
        assert r == r[..i] + [r[i]] + r[i + 1..j] + [r[j]] + r[j + 1..];
        assert multiset(r)[r[i]] >= 2;
        DistinctMultiplicity(s, r[i]);
        assert false;
      }
    }
  }

  /** `contains`: a linear scan for `item`. */
  method Contains(slice: seq<UserId>, item: UserId) returns (found: bool)
    ensures found <==> item in slice
  {
    var i := 0;
    while i < |slice|
      invariant 0 <= i <= |slice|
      invariant item !in slice[..i]
    {
      if slice[i] == item {
        return true;
      }
      i := i + 1;
    }
    assert slice[..|slice|] == slice;
    return false;
  }

  /** What `replaceInSlice` returns: every occurrence of `target` replaced by `replacement`. */
  function Replaced(s: seq<UserId>, target: UserId, replacement: UserId): (r: seq<UserId>)
    ensures |r| == |s|
  {
    seq(|s|, i requires 0 <= i < |s| => if s[i] == target then replacement else s[i])
  }

  /** `replaceInSlice`: fills a fresh slice of the same length position by position. */
  method ReplaceInSlice(slice: seq<UserId>, target: UserId, replacement: UserId) returns (result: seq<UserId>)
    ensures result == Replaced(slice, target, replacement)
  {
    var a := new UserId[|slice|];
    for i := 0 to |slice|
      invariant forall k :: 0 <= k < i ==> a[k] == (if slice[k] == target then replacement else slice[k])
    {
      if slice[i] == target {
        a[i] := replacement;
      } else {
        a[i] := slice[i];
      }
    }
    result := a[..];
  }

  /** Replacing one reviewer of a duplicate-free list by a newcomer: the newcomer
      takes exactly the replaced position, every other position is kept, the list
      stays duplicate-free and its set loses the old reviewer and gains the new. */
  lemma ReplacedSwapsOne(s: seq<UserId>, target: UserId, replacement: UserId, k: nat)
    requires Distinct(s) && k < |s| && s[k] == target
    requires replacement !in s
    ensures var r := Replaced(s, target, replacement);
      && |r| == |s|
      && r[k] == replacement
      && (forall j :: 0 <= j < |s| && j != k ==> r[j] == s[j])
      && Distinct(r)
      && Elems(r) == Elems(s) - {target} + {replacement}
  {
    var r := Replaced(s, target, replacement);
    forall x | x in Elems(s) - {target} + {replacement}
      ensures x in Elems(r)
    {
      if x == replacement {
        assert r[k] == x;
      } else {
        var j :| 0 <= j < |s| && s[j] == x;
        assert r[j] == x;
      }
    }
  }

  /** The sequence with every occurrence of `x` removed, order kept. */
  function RemoveAll(s: seq<UserId>, x: UserId): seq<UserId>
    decreases |s|
  {
    if s == [] then []
    else RemoveAll(s[..|s| - 1], x) + (if s[|s| - 1] == x then [] else [s[|s| - 1]])
  }

  lemma {:induction false} RemoveAllMembers(s: seq<UserId>, x: UserId)
    ensures forall y :: y in RemoveAll(s, x) <==> y in s && y != x
    ensures Distinct(s) ==> Distinct(RemoveAll(s, x))
    ensures |RemoveAll(s, x)| <= |s|
    decreases |s|
  {
    if s != [] {
      var init := s[..|s| - 1];
      assert s == init + [s[|s| - 1]];
      RemoveAllMembers(init, x);
      if Distinct(s) {
        assert Distinct(init);
        var last := s[|s| - 1];
        assert last !in init;
        assert last !in RemoveAll(init, x);
        var r := RemoveAll(init, x);
        if last != x {
          assert RemoveAll(s, x) == r + [last];
          assert forall i :: 0 <= i < |r| ==> r[i] != last;
        }
      }
    }
  }

  /** Removing a value that occurs once from a duplicate-free sequence shortens it by one. */
  lemma {:induction false} RemoveAllOfDistinct(s: seq<UserId>, x: UserId)
    requires Distinct(s) && x in s
    ensures |RemoveAll(s, x)| == |s| - 1
    ensures Distinct(RemoveAll(s, x))
    ensures Elems(RemoveAll(s, x)) == Elems(s) - {x}
    decreases |s|
  {
    var init := s[..|s| - 1];
    assert s == init + [s[|s| - 1]];
    assert Distinct(init);
    RemoveAllMembers(s, x);
    if s[|s| - 1] == x {
      assert x !in init;
      RemoveAllNone(init, x);
    } else {
      RemoveAllOfDistinct(init, x);
    }
  }

  /** Dropping a present value and appending an absent one keeps the length
      and swaps the one value in the set. */
  lemma SwapOne(s: seq<UserId>, x: UserId, y: UserId)
    requires Distinct(s) && x in s && y !in s
    ensures |RemoveAll(s, x) + [y]| == |s|
    ensures Elems(RemoveAll(s, x) + [y]) == Elems(s) - {x} + {y}
  {
    RemoveAllOfDistinct(s, x);
    var rest := RemoveAll(s, x);
    assert Elems(rest + [y]) == Elems(rest) + {y};
  }

  /** When the replaced value is the last one and appears nowhere before it,
      replacing in place and dropping-then-appending give the same list. */
  lemma ReplacedLast(s: seq<UserId>, x: UserId, y: UserId)
    requires s != [] && s[|s| - 1] == x && x !in s[..|s| - 1]
    ensures Replaced(s, x, y) == RemoveAll(s, x) + [y]
  {
    var init := s[..|s| - 1];
    assert s == init + [x];
    RemoveAllNone(init, x);
    assert RemoveAll(s, x) == init;
    assert Replaced(s, x, y) == init + [y];
  }

  lemma {:induction false} RemoveAllNone(s: seq<UserId>, x: UserId)
    requires x !in s
    ensures RemoveAll(s, x) == s
    decreases |s|
  {
    if s != [] {
      var init := s[..|s| - 1];
      assert s == init + [s[|s| - 1]];
      RemoveAllNone(init, x);
    }
  }
}
