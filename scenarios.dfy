/** Clients of the storage layer: merging twice, and small runs on a fresh
    database whose outcome the contracts of the operations determine. */
module Scenarios {

  import opened Models
  import opened Slices
  import opened Tables
  import opened Storage

  /** Merging the same pull request twice: the second call succeeds, changes
      nothing, and returns the first answer with the merge time as the column
      stored it. */
  method MergeTwice(s: Storage, id: PrId, t1: nat, t2: nat)
    returns (first: Result<PullRequest>, second: Result<PullRequest>)
    requires s.Valid()
    modifies s
    ensures s.Valid()
    ensures id !in old(s.prs) ==> first == Err(NotFound) && second == first && s.State() == old(s.State())
    ensures id in old(s.prs) && old(s.prs)[id].status == Merged ==>
      first.Ok? && second == first && s.State() == old(s.State())
    ensures id in old(s.prs) && old(s.prs)[id].status == Open ==>
      var stored := old(s.prs)[id].(status := Merged, mergedAt := Some(ColumnTime(t1)));
      && first.Ok? && first.value.status == Merged && first.value.mergedAt == Some(t1)
      && second == Ok(first.value.(mergedAt := Some(ColumnTime(t1))))
      && s.State() == old(s.State()).(prs := old(s.prs)[id := stored])
  {
    first := s.MergePR(id, t1);
    ghost var mid := s.State();
    second := s.MergePR(id, t2);
    assert s.State() == mid;
  }

  /** The three users of team T in the scenarios below. */
  function TeamT(cActive: bool): map<UserId, UserRow> {
    map["A" := UserRow("ann", "T", true), "B" := UserRow("bob", "T", true), "C" := UserRow("cyd", "T", cActive)]
  }

  /** With everyone active, B and C may review a pull request by A. */
  lemma PoolAllActive()
    ensures Pool(TeamT(true), "T", {"A"}) == {"B", "C"}
  {
  }

  /** With C inactive, only B may review a pull request by A. */
  lemma PoolCInactive()
    ensures Pool(TeamT(false), "T", {"A"}) == {"B"}
  {
  }

  /** Nobody in team T may replace B on A's pull request while B and C review it. */
  lemma NoReplacementForB(cActive: bool, current: seq<UserId>)
    requires "B" in current && "C" in current
    ensures forall u :: !IsReplacementCandidate(TeamT(cActive), u, "T", "A", current, "B")
  {
  }

  /** A fresh database after creating team T = {A, B, C}, A and B active. */
  method NewTeamT(cActive: bool) returns (s: Storage)
    ensures fresh(s) && s.Valid()
    ensures s.State() == Db({"T"}, TeamT(cActive), map[], [])
  {
    s := new Storage();
    var a, b, c := User("A", "ann", "T", true), User("B", "bob", "T", true), User("C", "cyd", "T", cActive);
    var done := s.CreateTeam(Team("T", [a, b, c]));
    assert [a, b, c][..2] == [a, b] && [a, b][..1] == [a] && [a][..0] == [];
    assert UpsertAll(map[], "T", [a]) == map["A" := UserRowOf(a, "T")];
    assert UpsertAll(map[], "T", [a, b]) == map["A" := UserRowOf(a, "T"), "B" := UserRowOf(b, "T")];
  }

  /** Team T = {A, B, C}, all active. A pull request by A gets both B and C
      (the pool has exactly two members), and replacing B then finds nobody. */
  method FullPoolThenNoCandidate() returns (created: Result<PullRequest>, reassigned: Result<Reassignment>)
    ensures created.Ok? && created.value.status == Open
    ensures |created.value.assignedReviewers| == 2
    ensures Elems(created.value.assignedReviewers) == {"B", "C"}
    ensures reassigned == Err(NoCandidate)
  {
    var s := NewTeamT(true);
    PoolAllActive();
    created := s.CreatePR("p1", "x", "A", 0);
    var revs := created.value.assignedReviewers;
    assert revs[0] in {"B", "C"} && revs[1] in {"B", "C"};
    assert Elems(revs) == {revs[0], revs[1]};
    assert "B" in revs && "C" in revs;
    NoReplacementForB(true, revs);
    reassigned := s.ReassignReviewer("p1", "B");
  }

  /** Team T = {A, B active, C inactive}: a pull request by A gets B alone. */
  method InactiveMemberSkipped() returns (created: Result<PullRequest>)
    ensures created.Ok? && created.value.assignedReviewers == ["B"]
  {
    var s := NewTeamT(false);
    PoolCInactive();
    assert "A" in s.users && s.users["A"].teamName == "T" && "p2" !in s.prs;
    created := s.CreatePR("p2", "y", "A", 0);
    var revs := created.value.assignedReviewers;
    assert |revs| == 1;
    assert revs[0] in revs;
    assert revs[0] == "B";
    assert revs == [revs[0]];
  }

  /** Creating a pull request twice under one identifier: the second call fails,
      and the first pull request reads back as created, its creation time
      rounded to the microsecond. */
  method DuplicateIdRejected() returns (first: Result<PullRequest>, second: Result<PullRequest>, stored: Result<PullRequest>)
    ensures first.Ok? && first.value.createdAt == 1_234_567 && second == Err(PRExists)
    ensures stored == Ok(first.value.(createdAt := 1_235_000))
  {
    var s := NewTeamT(true);
    assert ColumnTime(1_234_567) == 1_235_000;
    assert "A" in s.users && "p3" !in s.prs;
    first := s.CreatePR("p3", "z", "A", 1_234_567);
    ghost var mid := s.State();
    second := s.CreatePR("p3", "z2", "A", 2_000_000);
    assert s.State() == mid;
    stored := s.GetPRWithReviewers("p3");
  }
}
