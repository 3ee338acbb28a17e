/** The orderings of the two listing queries: team members by ascending
    `user_id` and a reviewer's pull requests by descending `created_at`. */
module Listing {

  import opened Models
  import opened Order

  /** Strictly ascending identifiers (identifiers are a primary key, so no ties). */
  predicate SortedById(ms: seq<User>) {
    forall i, j :: 0 <= i < j < |ms| ==> Less(ms[i].id, ms[j].id)
  }

  lemma ConsSortedById(h: User, t: seq<User>)
    requires SortedById(t)
    requires forall x :: x in t ==> Less(h.id, x.id)
    ensures SortedById([h] + t)
  {
    var s := [h] + t;
    forall i, j | 0 <= i < j < |s|
      ensures Less(s[i].id, s[j].id)
    {
      if i == 0 {
        assert s[j] == t[j - 1] && t[j - 1] in t;
      } else {
        assert s[i] == t[i - 1] && s[j] == t[j - 1];
      }
    }
  }

  /** Inserting a user with an identifier not yet listed keeps the list sorted. */
  function InsertById(ms: seq<User>, m: User): (r: seq<User>)
    requires SortedById(ms)
    requires forall i :: 0 <= i < |ms| ==> ms[i].id != m.id
    ensures |r| == |ms| + 1
    ensures forall x :: x in r <==> x in ms || x == m
    ensures SortedById(r)
    decreases |ms|
  {
    if ms == [] then [m]
    else if Less(m.id, ms[0].id) then
      assert forall x :: x in ms ==> Less(m.id, x.id) by {
        forall x | x in ms
          ensures Less(m.id, x.id)
        {
          var j :| 0 <= j < |ms| && ms[j] == x;
          if j > 0 {
            LessTransitive(m.id, ms[0].id, x.id);
          }
        }
      }
      ConsSortedById(m, ms);
      [m] + ms
    else
      var rest := InsertById(ms[1..], m);
      assert forall x :: x in rest ==> Less(ms[0].id, x.id) by {
        forall x | x in rest
          ensures Less(ms[0].id, x.id)
        {
          if x == m {
            LessTotal(m.id, ms[0].id);
          } else {
            var j :| 0 <= j < |ms[1..]| && ms[1..][j] == x;
            assert ms[j + 1] == x;
          }
        }
      }
      ConsSortedById(ms[0], rest);
      [ms[0]] + rest
  }

  /** Two sorted lists with the same elements and the same head have tails
      with the same elements. */
  lemma SameTails(a: seq<User>, b: seq<User>)
    requires SortedById(a) && SortedById(b) && a != [] && b != [] && a[0] == b[0]
    requires forall x :: x in a <==> x in b
    ensures forall x :: x in a[1..] <==> x in b[1..]
  {
    forall x | x in a[1..]
      ensures x in b[1..]
    {
      var k :| 0 <= k < |a[1..]| && a[1..][k] == x;
      assert Less(a[0].id, a[k + 1].id);
      LessIrreflexive(a[0].id);
      assert x in b && x != b[0];
      var l :| 0 <= l < |b| && b[l] == x;
      assert b[1..][l - 1] == x;
    }
    forall x | x in b[1..]
      ensures x in a[1..]
    {
      var k :| 0 <= k < |b[1..]| && b[1..][k] == x;
      assert Less(b[0].id, b[k + 1].id);
      LessIrreflexive(b[0].id);
      assert x in a && x != a[0];
      var l :| 0 <= l < |a| && a[l] == x;
      assert a[1..][l - 1] == x;
    }
  }

  /** Two strictly sorted lists with the same elements are the same list. */
  lemma {:induction false} SortedByIdUnique(a: seq<User>, b: seq<User>)
    requires SortedById(a) && SortedById(b)
    requires forall x :: x in a <==> x in b
    ensures a == b
    decreases |a|
  {
    if a != [] {
      assert a[0] in a;
    }
    if b != [] {
      assert b[0] in b;
    }
    if a != [] {
      assert b != [];
      var i :| 0 <= i < |a| && a[i] == b[0];
      var j :| 0 <= j < |b| && b[j] == a[0];
      if i > 0 && j > 0 {
        LessAsymmetric(a[0].id, b[0].id);
        assert false;
      }
      if i == 0 {
        assert a[0] == b[0];
      } else {
        assert a[0] == b[0];
      }
      SameTails(a, b);
      SortedByIdUnique(a[1..], b[1..]);
      assert a == [a[0]] + a[1..] && b == [b[0]] + b[1..];
    }
  }

  /** Newest first (`ORDER BY created_at DESC`); equal times may come in either order. */
  predicate NewestFirst(s: seq<PullRequest>) {
    forall i, j :: 0 <= i < j < |s| ==> s[i].createdAt >= s[j].createdAt
  }

  /** No pull request is listed twice. */
  predicate DistinctIds(s: seq<PullRequest>) {
    forall i, j :: 0 <= i < j < |s| ==> s[i].id != s[j].id
  }

  lemma ConsNewestFirst(h: PullRequest, t: seq<PullRequest>)
    requires NewestFirst(t)
    requires forall x :: x in t ==> h.createdAt >= x.createdAt
    ensures NewestFirst([h] + t)
  {
    var s := [h] + t;
    forall i, j | 0 <= i < j < |s|
      ensures s[i].createdAt >= s[j].createdAt
    {
      assert s[j] == t[j - 1] && t[j - 1] in t;
      if i > 0 {
        assert s[i] == t[i - 1];
      }
    }
  }

  lemma ConsDistinctIds(h: PullRequest, t: seq<PullRequest>)
    requires DistinctIds(t)
    requires forall x :: x in t ==> x.id != h.id
    ensures DistinctIds([h] + t)
  {
    var s := [h] + t;
    forall i, j | 0 <= i < j < |s|
      ensures s[i].id != s[j].id
    {
      assert s[j] == t[j - 1] && t[j - 1] in t;
      if i > 0 {
        assert s[i] == t[i - 1];
      }
    }
  }

  /** Inserting a pull request into a newest-first list keeps it newest first. */
  function InsertNewestFirst(s: seq<PullRequest>, m: PullRequest): (r: seq<PullRequest>)
    requires NewestFirst(s)
    ensures |r| == |s| + 1
    ensures forall x :: x in r <==> x in s || x == m
    ensures NewestFirst(r)
    decreases |s|
  {
    if s == [] then [m]
    else if m.createdAt >= s[0].createdAt then
      assert forall x :: x in s ==> m.createdAt >= x.createdAt by {
        forall x | x in s
          ensures m.createdAt >= x.createdAt
        {
          var j :| 0 <= j < |s| && s[j] == x;
        }
      }
      ConsNewestFirst(m, s);
      [m] + s
    else
      var t := s[1..];
      var rest := InsertNewestFirst(t, m);
      assert forall x :: x in t ==> s[0].createdAt >= x.createdAt by {
        forall x | x in t
          ensures s[0].createdAt >= x.createdAt
        {
          var j :| 0 <= j < |t| && t[j] == x;
          assert s[j + 1] == x;
        }
      }
      ConsNewestFirst(s[0], rest);
      [s[0]] + rest
  }

  /** Inserting a pull request that is not listed yet keeps every pull request listed once. */
  lemma {:induction false} InsertNewestFirstDistinct(s: seq<PullRequest>, m: PullRequest)
    requires NewestFirst(s) && DistinctIds(s)
    requires forall i :: 0 <= i < |s| ==> s[i].id != m.id
    ensures DistinctIds(InsertNewestFirst(s, m))
    decreases |s|
  {
    if s != [] && m.createdAt < s[0].createdAt {
      var t := s[1..];
      InsertNewestFirstDistinct(t, m);
      var rest := InsertNewestFirst(t, m);
      forall x | x in rest
        ensures x.id != s[0].id
      {
        if x != m {
          var j :| 0 <= j < |t| && t[j] == x;
          assert s[j + 1] == x;
        }
      }
      ConsDistinctIds(s[0], rest);
    } else if s != [] {
      forall x | x in s
        ensures x.id != m.id
      {
        var j :| 0 <= j < |s| && s[j] == x;
      }
      ConsDistinctIds(m, s);
    }
  }
}
