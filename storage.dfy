/** The storage layer of the reviewer-assignment service. Each public operation
    is one atomic step over the four tables; an operation that fails leaves the
    tables as they were, as the surrounding transaction's rollback does. */
module Storage {

  import opened Models
  import opened Slices
  import opened Selection
  import opened Listing
  import opened Tables

  /** How many reviewers a new pull request gets at most. */
  const MaxReviewers: nat := 2

  class Storage {
    var teams: set<TeamName>
    var users: map<UserId, UserRow>
    var prs: map<PrId, PrRow>
    var reviewers: seq<ReviewerRow>

    /** The tables as one value. */
    function State(): Db
      reads this
    {
      Db(teams, users, prs, reviewers)
    }

    ghost predicate Valid()
      reads this
    {
      DbValid(State())
    }

    /** An empty database, as `Init` leaves a fresh one. */
    constructor ()
      ensures Valid()
      ensures State() == Db({}, map[], map[], [])
    {
      teams := {};
      users := map[];
      prs := map[];
      reviewers := [];
    }

    // ------------------------------------------------------------ teams

    /** `CreateTeam`: insert the team, then upsert every member into it. */
    method CreateTeam(team: Team) returns (r: Outcome)
      requires Valid()
      modifies this
      ensures Valid() && Evolves(old(State()), State())
      ensures team.name in old(teams) ==> r == Failed(TeamExists) && State() == old(State())
      ensures team.name !in old(teams) ==>
        && r == Done
        && State() == old(State()).(teams := old(teams) + {team.name},
                                    users := UpsertAll(old(users), team.name, team.members))
    {
      if team.name in teams {
        return Failed(TeamExists);
      }
      teams := teams + {team.name};
      var i := 0;
      while i < |team.members|
        invariant 0 <= i <= |team.members|
        invariant Valid()
        invariant teams == old(teams) + {team.name}
        invariant prs == old(prs) && reviewers == old(reviewers)
        invariant old(users).Keys <= users.Keys
        invariant users == UpsertAll(old(users), team.name, team.members[..i])
      {
        var member := team.members[i];
        UpsertKeepsValid(State(), team.name, member);
        users := users[member.id := UserRowOf(member, team.name)];
        assert team.members[..i + 1][..i] == team.members[..i];
        i := i + 1;
      }
      assert team.members[..|team.members|] == team.members;
      return Done;
    }

    /** `GetTeam`: the team's members by ascending identifier. */
    method GetTeam(name: TeamName) returns (r: Result<Team>)
      ensures name !in teams ==> r == Err(NotFound)
      ensures name in teams ==> r.Ok? && r.value.name == name && TeamListing(users, name, r.value.members)
    {
      if name !in teams {
        return Err(NotFound);
      }
      var members: seq<User> := [];
      var remaining := users.Keys;
      while remaining != {}
        invariant remaining <= users.Keys
        invariant SortedById(members)
        invariant forall i :: 0 <= i < |members| ==>
          && members[i].id in users
          && members[i].id !in remaining
          && users[members[i].id].teamName == name
          && members[i] == User(members[i].id, users[members[i].id].username, "", users[members[i].id].isActive)
        invariant forall u :: u in users && u !in remaining && users[u].teamName == name ==>
          exists i :: 0 <= i < |members| && members[i].id == u
        decreases remaining
      {
        var u :| u in remaining;
        if users[u].teamName == name {
          var m := User(u, users[u].username, "", users[u].isActive);
          var next := InsertById(members, m);
          forall v | v in users && v !in remaining - {u} && users[v].teamName == name
            ensures exists i :: 0 <= i < |next| && next[i].id == v
          {
            if v == u {
              assert m in next;
            } else {
              var i :| 0 <= i < |members| && members[i].id == v;
              assert members[i] in next;
            }
          }
          forall i | 0 <= i < |next|
            ensures next[i] in members || next[i] == m
          {
            assert next[i] in next;
          }
          members := next;
        }
        remaining := remaining - {u};
      }
      return Ok(Team(name, members));
    }

    // ------------------------------------------------------------ users

    /** `SetUserActive`: change one user's activity flag and return that user. */
    method SetUserActive(userId: UserId, isActive: bool) returns (r: Result<User>)
      requires Valid()
      modifies this
      ensures Valid() && Evolves(old(State()), State())
      ensures userId !in old(users) ==> r == Err(NotFound) && State() == old(State())
      ensures userId in old(users) ==>
        var row := old(users)[userId];
        && r == Ok(User(userId, row.username, row.teamName, isActive))
        && State() == old(State()).(users := old(users)[userId := row.(isActive := isActive)])
    {
      if userId !in users {
        return Err(NotFound);
      }
      var row := users[userId];
      users := users[userId := row.(isActive := isActive)];
      return Ok(User(userId, row.username, row.teamName, isActive));
    }

    /** `GetUserReviews`: the pull requests the user reviews, newest first. */
    method GetUserReviews(userId: UserId) returns (r: Result<seq<PullRequest>>)
      requires Valid()
      ensures userId !in users ==> r == Err(NotFound)
      ensures userId in users ==> r.Ok? && ReviewListing(State(), userId, r.value)
    {
      if userId !in users {
        return Err(NotFound);
      }
      var out: seq<PullRequest> := [];
      var i := 0;
      while i < |reviewers|
        invariant 0 <= i <= |reviewers|
        invariant ReviewsSoFar(State(), userId, out, i)
      {
        var row := reviewers[i];
        if row.reviewerId == userId {
          ReviewsTake(State(), userId, out, i);
          out := InsertNewestFirst(out, View(row.prId, prs[row.prId], []));
        } else {
          ReviewsSkip(State(), userId, out, i);
        }
        i := i + 1;
      }
      ReviewsDone(State(), userId, out);
      return Ok(out);
    }

    // ------------------------------------------------------------ queries

    /** `getPRReviewers`: the reviewer identifiers of one pull request, in row order. */
    method GetPRReviewers(prId: PrId) returns (ids: seq<UserId>)
      ensures ids == ReviewersOf(reviewers, prId)
    {
      ids := [];
      var i := 0;
      while i < |reviewers|
        invariant 0 <= i <= |reviewers|
        invariant ids == ReviewersOf(reviewers[..i], prId)
      {
        ReviewersOfAppend(reviewers[..i], reviewers[i], prId);
        assert reviewers[..i + 1] == reviewers[..i] + [reviewers[i]];
        if reviewers[i].prId == prId {
          ids := ids + [reviewers[i].reviewerId];
        }
        i := i + 1;
      }
      assert reviewers[..|reviewers|] == reviewers;
    }

    /** `getPRWithReviewers`: one pull request with its reviewers. */
    method GetPRWithReviewers(prId: PrId) returns (r: Result<PullRequest>)
      ensures prId !in prs ==> r == Err(NotFound)
      ensures prId in prs ==> r == Ok(View(prId, prs[prId], ReviewersOf(reviewers, prId)))
    {
      if prId !in prs {
        return Err(NotFound);
      }
      var revs := GetPRReviewers(prId);
      return Ok(View(prId, prs[prId], revs));
    }

    /** The candidate query: active members of `team` outside `excluded`, in no
        particular order. */
    method ActiveTeammates(team: TeamName, excluded: set<UserId>) returns (ids: seq<UserId>)
      ensures Distinct(ids)
      ensures Elems(ids) == Pool(users, team, excluded)
    {
      ids := [];
      var remaining := users.Keys;
      while remaining != {}
        invariant remaining <= users.Keys
        invariant Distinct(ids)
        invariant forall u :: u in ids ==> u !in remaining
        invariant Elems(ids) == Pool(users, team, excluded) - remaining
        decreases remaining
      {
        var u :| u in remaining;
        if users[u].teamName == team && users[u].isActive && u !in excluded {
          assert Elems(ids + [u]) == Elems(ids) + {u};
          assert forall k :: 0 <= k < |ids| ==> ids[k] != u;
          ids := ids + [u];
        } else {
          assert u !in Pool(users, team, excluded);
        }
        remaining := remaining - {u};
      }
    }

    /** `findReplacementCandidates`: exclude the author, the replaced reviewer
        and every other current reviewer. */
    method FindReplacementCandidates(team: TeamName, authorId: UserId, current: seq<UserId>, exclude: UserId)
      returns (candidates: seq<UserId>)
      ensures Distinct(candidates)
      ensures forall u :: u in candidates <==> IsReplacementCandidate(users, u, team, authorId, current, exclude)
    {
      var excluded: seq<UserId> := [authorId, exclude];
      var i := 0;
      while i < |current|
        invariant 0 <= i <= |current|
        invariant forall u :: u in excluded <==> u == authorId || u == exclude || (u in current[..i] && u != exclude)
      {
        assert current[..i + 1] == current[..i] + [current[i]];
        if current[i] != exclude {
          excluded := excluded + [current[i]];
        }
        i := i + 1;
      }
      assert current[..|current|] == current;
      candidates := ActiveTeammates(team, Elems(excluded));
      forall u
        ensures u in candidates <==> IsReplacementCandidate(users, u, team, authorId, current, exclude)
      {
        assert u in candidates <==> u in Elems(candidates);
      }
    }

    // ------------------------------------------------------------ pull requests

    /** `CreatePR`: look up the author, draw up to two active teammates, then
        insert the pull request and one reviewer row per drawn teammate. */
    method CreatePR(id: PrId, name: string, authorId: UserId, now: nat) returns (r: Result<PullRequest>)
      requires Valid()
      modifies this
      ensures Valid() && Evolves(old(State()), State())
      ensures authorId !in old(users) ==> r == Err(AuthorNotFound) && State() == old(State())
      ensures authorId in old(users) && id in old(prs) ==> r == Err(PRExists) && State() == old(State())
      ensures authorId in old(users) && id !in old(prs) ==>
        var pool := Pool(old(users), old(users)[authorId].teamName, {authorId});
        var row := PrRow(name, authorId, Open, ColumnTime(now), None);
        && r.Ok?
        && r.value == PullRequest(id, name, authorId, Open, r.value.assignedReviewers, now, None)
        && |r.value.assignedReviewers| == (if |pool| <= MaxReviewers then |pool| else MaxReviewers)
        && Distinct(r.value.assignedReviewers)
        && (forall u :: u in r.value.assignedReviewers ==> u in pool)
        && State() == old(State()).(prs := old(prs)[id := row],
                                    reviewers := old(reviewers) + RowsFor(id, r.value.assignedReviewers))
        && ReviewersOf(reviewers, id) == r.value.assignedReviewers
    {
      if authorId !in users {
        return Err(AuthorNotFound);
      }
      var author := users[authorId];
      var candidates := ActiveTeammates(author.teamName, {authorId});
      var picked := SelectRandomReviewers(candidates, MaxReviewers);
      DistinctCardinality(candidates);
      if id in prs {
        return Err(PRExists);
      }
      ghost var before := State();
      NoReviewersOfAbsent(before, id);
      var row := PrRow(name, authorId, Open, ColumnTime(now), None);
      InsertPrKeepsValid(before, id, row);
      prs := prs[id := row];
      forall u | u in picked
        ensures u in users && u != authorId
      {
        assert u in Elems(candidates);
      }
      AppendReviewers(id, picked);
      CreatePrEvolves(before, id, row, picked);
      r := Ok(PullRequest(id, name, authorId, Open, picked, now, None));
    }

    /** The insert loop of `CreatePR`: one reviewer row per drawn teammate, in
        drawing order, for a pull request that has no reviewer rows yet. */
    method AppendReviewers(id: PrId, picked: seq<UserId>)
      requires Valid() && id in prs && ReviewersOf(reviewers, id) == []
      requires Distinct(picked)
      requires forall u :: u in picked ==> u in users && u != prs[id].authorId
      modifies this
      ensures Valid()
      ensures State() == old(State()).(reviewers := old(reviewers) + RowsFor(id, picked))
    {
      ghost var before := State();
      var i := 0;
      while i < |picked|
        invariant 0 <= i <= |picked|
        invariant teams == before.teams && users == before.users && prs == before.prs
        invariant reviewers == before.reviewers + RowsFor(id, picked[..i])
      {
        assert picked[..i + 1] == picked[..i] + [picked[i]];
        assert RowsFor(id, picked[..i + 1]) == RowsFor(id, picked[..i]) + [ReviewerRow(id, picked[i])];
        reviewers := reviewers + [ReviewerRow(id, picked[i])];
        i := i + 1;
      }
      assert picked[..|picked|] == picked;
      RowsForKeepsValid(before, id, picked);
    }

    /** `MergePR`: mark an open pull request merged at `now`; merging a merged
        pull request returns it untouched. */
    method MergePR(id: PrId, now: nat) returns (r: Result<PullRequest>)
      requires Valid()
      modifies this
      ensures Valid() && Evolves(old(State()), State())
      ensures id !in old(prs) ==> r == Err(NotFound) && State() == old(State())
      ensures id in old(prs) && old(prs)[id].status == Merged ==>
        && r == Ok(View(id, old(prs)[id], ReviewersOf(old(reviewers), id)))
        && State() == old(State())
      ensures id in old(prs) && old(prs)[id].status == Open ==>
        var row := old(prs)[id].(status := Merged, mergedAt := Some(ColumnTime(now)));
        && r == Ok(View(id, old(prs)[id].(status := Merged, mergedAt := Some(now)), ReviewersOf(old(reviewers), id)))
        && State() == old(State()).(prs := old(prs)[id := row])
    {
      var got := GetPRWithReviewers(id);
      if got.Err? {
        return got;
      }
      var pr := got.value;
      if pr.status == Merged {
        return got;
      }
      MergeKeepsValid(State(), id, ColumnTime(now));
      var row := prs[id].(status := Merged, mergedAt := Some(ColumnTime(now)));
      prs := prs[id := row];
      return Ok(pr.(status := Merged, mergedAt := Some(now)));
    }

    /** `ReassignReviewer`: replace one reviewer of an open pull request by a
        drawn active teammate of the replaced reviewer. */
    method ReassignReviewer(prId: PrId, oldReviewer: UserId) returns (r: Result<Reassignment>)
      requires Valid()
      modifies this
      ensures Valid() && Evolves(old(State()), State())
      ensures r.Err? ==> State() == old(State())
      ensures prId !in old(prs) ==> r == Err(NotFound)
      ensures prId in old(prs) && old(prs)[prId].status == Merged ==> r == Err(PRMerged)
      ensures (prId in old(prs) && old(prs)[prId].status == Open &&
               oldReviewer !in ReviewersOf(old(reviewers), prId)) ==> r == Err(NotAssigned)
      ensures prId in old(prs) && oldReviewer in ReviewersOf(old(reviewers), prId) ==> oldReviewer in old(users)
      ensures (prId in old(prs) && old(prs)[prId].status == Open &&
               oldReviewer in ReviewersOf(old(reviewers), prId)) ==>
        var current := ReviewersOf(old(reviewers), prId);
        var team := old(users)[oldReviewer].teamName;
        var author := old(prs)[prId].authorId;
        && ((forall u :: !IsReplacementCandidate(old(users), u, team, author, current, oldReviewer)) ==>
              r == Err(NoCandidate))
        && ((exists u :: IsReplacementCandidate(old(users), u, team, author, current, oldReviewer)) ==>
              && r.Ok?
              && IsReplacementCandidate(old(users), r.value.newReviewer, team, author, current, oldReviewer)
              && r.value.pr == View(prId, old(prs)[prId], Replaced(current, oldReviewer, r.value.newReviewer))
              && State() == old(State()).(reviewers := Reassigned(old(reviewers), prId, oldReviewer, r.value.newReviewer))
              && |ReviewersOf(reviewers, prId)| == |current|
              && Elems(ReviewersOf(reviewers, prId)) == Elems(current) - {oldReviewer} + {r.value.newReviewer})
    {
      if prId in prs && oldReviewer in ReviewersOf(reviewers, prId) {
        ListedReviewerExists(State(), prId, oldReviewer);
      }
      var got := GetPRWithReviewers(prId);
      if got.Err? {
        return Err(got.error);
      }
      var pr := got.value;
      if pr.status == Merged {
        return Err(PRMerged);
      }
      var isAssigned := Contains(pr.assignedReviewers, oldReviewer);
      if !isAssigned {
        return Err(NotAssigned);
      }
      ListedReviewerExists(State(), prId, oldReviewer);
      var oldTeam := users[oldReviewer].teamName;
      var candidates := FindReplacementCandidates(oldTeam, pr.authorId, pr.assignedReviewers, oldReviewer);
      if |candidates| == 0 {
        return Err(NoCandidate);
      }
      var newReviewer := SelectRandomReviewer(candidates);
      ghost var before := State();
      ReviewersOfMembership(reviewers, prId, oldReviewer);
      ReviewersOfMembership(reviewers, prId, newReviewer);
      ReassignedRows(reviewers, prId, oldReviewer, newReviewer);
      ReassignKeepsValid(before, prId, oldReviewer, newReviewer);
      reviewers := Without(reviewers, ReviewerRow(prId, oldReviewer));
      reviewers := reviewers + [ReviewerRow(prId, newReviewer)];
      assert State() == before.(reviewers := Reassigned(before.reviewers, prId, oldReviewer, newReviewer));
      var newReviewers := ReplaceInSlice(pr.assignedReviewers, oldReviewer, newReviewer);
      return Ok(Reassignment(pr.(assignedReviewers := newReviewers), newReviewer));
    }
  }
}
