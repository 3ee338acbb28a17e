/** The four tables of the database as one value, the keys and references they
    are declared with, and the queries the storage layer runs over them. */
module Tables {

  import opened Models
  import opened Slices
  import opened Listing

  /** A row of `users`, keyed by `user_id`. */
  datatype UserRow = UserRow(username: string, teamName: TeamName, isActive: bool)

  /** A row of `pull_requests`, keyed by `pull_request_id`. */
  datatype PrRow = PrRow(name: string, authorId: UserId, status: Status, createdAt: nat, mergedAt: Option<nat>)

  /** A row of `pr_reviewers`; the pair is the primary key. */
  datatype ReviewerRow = ReviewerRow(prId: PrId, reviewerId: UserId)

  /** The whole database: `teams` (the primary key is the name), `users`,
      `pull_requests`, and `pr_reviewers` in the order its rows were inserted. */
  datatype Db = Db(
    teams: set<TeamName>,
    users: map<UserId, UserRow>,
    prs: map<PrId, PrRow>,
    reviewers: seq<ReviewerRow>)

  /** What a `TIMESTAMP` column keeps of a clock reading in nanoseconds: the
      reading rounded to the nearest microsecond (ties upward). */
  function ColumnTime(now: nat): (t: nat)
    ensures t % 1000 == 0
    ensures t <= now + 500 && now < t + 500
  {
    now + 500 - (now + 500) % 1000
  }

  /** Storing a stored time again keeps it. */
  lemma ColumnTimeIdempotent(now: nat)
    ensures ColumnTime(ColumnTime(now)) == ColumnTime(now)
  {
    var t := ColumnTime(now);
    assert (t + 500) % 1000 == 500;
  }

  /** A reviewer row refers to an existing pull request and an existing user
      who is not that pull request's author. */
  predicate RowConsistent(db: Db, row: ReviewerRow) {
    && row.prId in db.prs
    && row.reviewerId in db.users
    && row.reviewerId != db.prs[row.prId].authorId
  }

  /** The database invariant: the declared references, the reviewer-row key,
      a merge time exactly on merged pull requests, and no author reviewing
      their own pull request. */
  predicate DbValid(db: Db) {
    && (forall u :: u in db.users ==> db.users[u].teamName in db.teams)
    && (forall p :: p in db.prs ==> db.prs[p].authorId in db.users)
    && (forall p :: p in db.prs ==> (db.prs[p].status == Merged <==> db.prs[p].mergedAt.Some?))
    && Distinct(db.reviewers)
    && (forall i :: 0 <= i < |db.reviewers| ==> RowConsistent(db, db.reviewers[i]))
  }

  /** How a database may change over one operation: no team, user or pull
      request is deleted (reviewer rows may be), a pull request keeps its name,
      author and creation time, and a merged pull request is frozen together
      with its reviewers. */
  predicate Evolves(before: Db, after: Db) {
    && before.teams <= after.teams
    && before.users.Keys <= after.users.Keys
    && (forall p :: p in before.prs ==>
          && p in after.prs
          && after.prs[p].name == before.prs[p].name
          && after.prs[p].authorId == before.prs[p].authorId
          && after.prs[p].createdAt == before.prs[p].createdAt)
    && (forall p :: p in before.prs && before.prs[p].status == Merged ==>
          && after.prs[p] == before.prs[p]
          && ReviewersOf(after.reviewers, p) == ReviewersOf(before.reviewers, p))
  }

  /** Any run of operations evolves the database the same way as one operation:
      in particular a merged pull request stays merged with the same reviewers. */
  lemma EvolvesTransitive(a: Db, b: Db, c: Db)
    requires Evolves(a, b) && Evolves(b, c)
    ensures Evolves(a, c)
  {
  }

  // ---------------------------------------------------------------- reviewer rows

  /** `getPRReviewers`: the reviewers of `p`, in row order. */
  function ReviewersOf(rows: seq<ReviewerRow>, p: PrId): seq<UserId>
    decreases |rows|
  {
    if rows == [] then []
    else
      var last := rows[|rows| - 1];
      ReviewersOf(rows[..|rows| - 1], p) + (if last.prId == p then [last.reviewerId] else [])
  }

  lemma ReviewersOfAppend(rows: seq<ReviewerRow>, row: ReviewerRow, p: PrId)
    ensures ReviewersOf(rows + [row], p) ==
            ReviewersOf(rows, p) + (if row.prId == p then [row.reviewerId] else [])
  {
    assert (rows + [row])[..|rows|] == rows;
  }

  /** A user is listed as a reviewer of `p` exactly when the row (p, user) exists. */
  lemma {:induction false} ReviewersOfMembership(rows: seq<ReviewerRow>, p: PrId, u: UserId)
    ensures u in ReviewersOf(rows, p) <==> ReviewerRow(p, u) in rows
    decreases |rows|
  {
    if rows != [] {
      var init := rows[..|rows| - 1];
      assert rows == init + [rows[|rows| - 1]];
      ReviewersOfMembership(init, p, u);
    }
  }

  /** Unique rows give a duplicate-free reviewer list. */
  lemma {:induction false} ReviewersOfDistinct(rows: seq<ReviewerRow>, p: PrId)
    requires Distinct(rows)
    ensures Distinct(ReviewersOf(rows, p))
    decreases |rows|
  {
    if rows != [] {
      var init := rows[..|rows| - 1];
      var last := rows[|rows| - 1];
      assert rows == init + [last];
      assert Distinct(init);
      ReviewersOfDistinct(init, p);
      if last.prId == p {
        ReviewersOfMembership(init, p, last.reviewerId);
        assert last !in init;
        var r := ReviewersOf(init, p);
        assert forall i :: 0 <= i < |r| ==> r[i] != last.reviewerId;
      }
    }
  }

  /** A pull request that does not exist has no reviewer rows. */
  lemma NoReviewersOfAbsent(db: Db, p: PrId)
    requires DbValid(db) && p !in db.prs
    ensures ReviewersOf(db.reviewers, p) == []
  {
    var r := ReviewersOf(db.reviewers, p);
    if r != [] {
      ReviewersOfMembership(db.reviewers, p, r[0]);
      assert false;
    }
  }

  /** A listed reviewer is an existing user other than the author. */
  lemma ListedReviewerExists(db: Db, p: PrId, u: UserId)
    requires DbValid(db) && u in ReviewersOf(db.reviewers, p)
    ensures p in db.prs && u in db.users && u != db.prs[p].authorId
  {
    ReviewersOfMembership(db.reviewers, p, u);
    var i :| 0 <= i < |db.reviewers| && db.reviewers[i] == ReviewerRow(p, u);
    assert RowConsistent(db, db.reviewers[i]);
  }

  /** The rows a pull request creation inserts, one per selected reviewer. */
  function RowsFor(p: PrId, revs: seq<UserId>): (rows: seq<ReviewerRow>)
    ensures |rows| == |revs|
  {
    seq(|revs|, k requires 0 <= k < |revs| => ReviewerRow(p, revs[k]))
  }

  /** Appending the rows for `revs` appends `revs` to p's reviewers and to no one else's. */
  lemma RowsForSnoc(p: PrId, revs: seq<UserId>)
    requires revs != []
    ensures RowsFor(p, revs) == RowsFor(p, revs[..|revs| - 1]) + [ReviewerRow(p, revs[|revs| - 1])]
  {
  }

  lemma {:induction false} ReviewersOfRowsFor(rows: seq<ReviewerRow>, p: PrId, revs: seq<UserId>, q: PrId)
    ensures ReviewersOf(rows + RowsFor(p, revs), q) == ReviewersOf(rows, q) + (if q == p then revs else [])
    decreases |revs|
  {
    if revs == [] {
      assert rows + RowsFor(p, revs) == rows;
    } else {
      var init := revs[..|revs| - 1];
      var last := revs[|revs| - 1];
      var prefix := rows + RowsFor(p, init);
      ReviewersOfRowsFor(rows, p, init, q);
      RowsForSnoc(p, revs);
      assert rows + RowsFor(p, revs) == prefix + [ReviewerRow(p, last)];
      ReviewersOfAppend(prefix, ReviewerRow(p, last), q);
      assert revs == init + [last];
    }
  }

  /** Inserting a new open pull request by an existing author keeps the invariant. */
  lemma InsertPrKeepsValid(db: Db, id: PrId, row: PrRow)
    requires DbValid(db) && id !in db.prs
    requires row.authorId in db.users && row.status == Open && row.mergedAt == None
    ensures DbValid(db.(prs := db.prs[id := row]))
  {
    var after := db.(prs := db.prs[id := row]);
    forall i | 0 <= i < |db.reviewers|
      ensures RowConsistent(after, db.reviewers[i])
    {
      assert RowConsistent(db, db.reviewers[i]);
    }
  }

  /** Marking an open pull request merged at `now` keeps the invariant and the
      evolution rule. */
  lemma MergeKeepsValid(db: Db, p: PrId, now: nat)
    requires DbValid(db) && p in db.prs && db.prs[p].status == Open
    ensures var after := db.(prs := db.prs[p := db.prs[p].(status := Merged, mergedAt := Some(now))]);
      DbValid(after) && Evolves(db, after)
  {
    var after := db.(prs := db.prs[p := db.prs[p].(status := Merged, mergedAt := Some(now))]);
    forall i | 0 <= i < |db.reviewers|
      ensures RowConsistent(after, db.reviewers[i])
    {
      assert RowConsistent(db, db.reviewers[i]);
    }
  }

  /** Opening a new pull request with the rows of its drawn reviewers gives it
      exactly those reviewers, leaves every other reviewer list alone and keeps
      the evolution rule. */
  lemma CreatePrEvolves(db: Db, p: PrId, row: PrRow, revs: seq<UserId>)
    requires p !in db.prs && ReviewersOf(db.reviewers, p) == []
    ensures var after := db.(prs := db.prs[p := row], reviewers := db.reviewers + RowsFor(p, revs));
      && ReviewersOf(after.reviewers, p) == revs
      && Evolves(db, after)
  {
    ReviewersOfRowsFor(db.reviewers, p, revs, p);
    forall q | q != p
      ensures ReviewersOf(db.reviewers + RowsFor(p, revs), q) == ReviewersOf(db.reviewers, q)
    {
      ReviewersOfRowsFor(db.reviewers, p, revs, q);
    }
  }

  /** Inserting one row per drawn reviewer for a pull request without reviewers
      keeps the invariant, when the drawn reviewers are distinct existing users
      other than the author. */
  lemma RowsForKeepsValid(db: Db, p: PrId, revs: seq<UserId>)
    requires DbValid(db) && p in db.prs && ReviewersOf(db.reviewers, p) == []
    requires Distinct(revs)
    requires forall u :: u in revs ==> u in db.users && u != db.prs[p].authorId
    ensures DbValid(db.(reviewers := db.reviewers + RowsFor(p, revs)))
  {
    var n := |db.reviewers|;
    var rows := db.reviewers + RowsFor(p, revs);
    var after := db.(reviewers := rows);
    forall i | 0 <= i < n
      ensures db.reviewers[i].prId != p
    {
      ReviewersOfMembership(db.reviewers, p, db.reviewers[i].reviewerId);
      assert db.reviewers[i] in db.reviewers;
    }
    forall i, j | 0 <= i < j < |rows|
      ensures rows[i] != rows[j]
    {
      if n <= i {
        assert rows[i] == ReviewerRow(p, revs[i - n]) && rows[j] == ReviewerRow(p, revs[j - n]);
      } else if n <= j {
        assert rows[i] == db.reviewers[i] && rows[j].prId == p;
      }
    }
    forall i | 0 <= i < |rows|
      ensures RowConsistent(after, rows[i])
    {
      if i < n {
        assert rows[i] == db.reviewers[i] && RowConsistent(db, db.reviewers[i]);
      } else {
        assert rows[i] == ReviewerRow(p, revs[i - n]) && revs[i - n] in revs;
      }
    }
  }

  /** `DELETE FROM pr_reviewers WHERE pr_id = .. AND reviewer_id = ..`. */
  function Without(rows: seq<ReviewerRow>, row: ReviewerRow): seq<ReviewerRow>
    decreases |rows|
  {
    if rows == [] then []
    else
      var last := rows[|rows| - 1];
      Without(rows[..|rows| - 1], row) + (if last == row then [] else [last])
  }

  lemma {:induction false} WithoutMembers(rows: seq<ReviewerRow>, row: ReviewerRow)
    ensures forall x :: x in Without(rows, row) <==> x in rows && x != row
    ensures Distinct(rows) ==> Distinct(Without(rows, row))
    decreases |rows|
  {
    if rows != [] {
      var init := rows[..|rows| - 1];
      var last := rows[|rows| - 1];
      assert rows == init + [last];
      WithoutMembers(init, row);
      if Distinct(rows) && last != row {
        assert Distinct(init);
        assert last !in init;
        var w := Without(init, row);
        assert forall i :: 0 <= i < |w| ==> w[i] != last;
      }
    }
  }

  /** Deleting the row (p, u) removes u from p's reviewers and leaves every
      other pull request's reviewers alone. */
  lemma {:induction false} ReviewersOfWithout(rows: seq<ReviewerRow>, p: PrId, u: UserId, q: PrId)
    ensures ReviewersOf(Without(rows, ReviewerRow(p, u)), q) ==
            if q == p then RemoveAll(ReviewersOf(rows, q), u) else ReviewersOf(rows, q)
    decreases |rows|
  {
    if rows != [] {
      var init := rows[..|rows| - 1];
      var last := rows[|rows| - 1];
      assert rows == init + [last];
      ReviewersOfWithout(init, p, u, q);
      ReviewersOfAppend(Without(init, ReviewerRow(p, u)), last, q);
      var before := ReviewersOf(init, q);
      if last != ReviewerRow(p, u) {
        assert Without(rows, ReviewerRow(p, u)) == Without(init, ReviewerRow(p, u)) + [last];
        if last.prId == q && q == p {
          assert ReviewersOf(rows, q) == before + [last.reviewerId];
          assert (before + [last.reviewerId])[..|before|] == before;
          assert RemoveAll(before + [last.reviewerId], u) == RemoveAll(before, u) + [last.reviewerId];
        } else if last.prId == q {
          assert ReviewersOf(rows, q) == before + [last.reviewerId];
        } else {
          assert ReviewersOf(rows, q) == before;
        }
      } else {
        assert Without(rows, ReviewerRow(p, u)) == Without(init, ReviewerRow(p, u));
        if q == p {
          assert ReviewersOf(rows, q) == before + [u];
          assert (before + [u])[..|before|] == before;
          assert RemoveAll(before + [u], u) == RemoveAll(before, u);
        }
      }
    }
  }

  // ---------------------------------------------------------------- candidate pools

  /** Active members of `team` that are not excluded: the candidate queries. */
  function Pool(users: map<UserId, UserRow>, team: TeamName, excluded: set<UserId>): set<UserId> {
    set u | u in users && users[u].teamName == team && users[u].isActive && u !in excluded
  }

  /** Who may take over from `replaced` on a pull request by `author` whose
      current reviewers are `current`: an active member of `team` who is not the
      author, not the replaced reviewer and not already reviewing. */
  predicate IsReplacementCandidate(users: map<UserId, UserRow>, u: UserId, team: TeamName,
                                   author: UserId, current: seq<UserId>, replaced: UserId)
  {
    && u in users
    && users[u].teamName == team
    && users[u].isActive
    && u != author
    && u != replaced
    && u !in current
  }

  // ---------------------------------------------------------------- team upsert

  function UserRowOf(m: User, team: TeamName): UserRow {
    UserRow(m.username, team, m.isActive)
  }

  /** The users table after upserting `members`, in order, into `team`. */
  function UpsertAll(users: map<UserId, UserRow>, team: TeamName, members: seq<User>): map<UserId, UserRow>
    decreases |members|
  {
    if members == [] then users
    else
      var last := members[|members| - 1];
      UpsertAll(users, team, members[..|members| - 1])[last.id := UserRowOf(last, team)]
  }

  /** The identifiers listed in a member list. */
  function MemberIds(members: seq<User>): set<UserId> {
    set m | m in members :: m.id
  }

  lemma MemberIdsSnoc(members: seq<User>)
    requires members != []
    ensures MemberIds(members) == MemberIds(members[..|members| - 1]) + {members[|members| - 1].id}
  {
    var init := members[..|members| - 1];
    assert members == init + [members[|members| - 1]];
  }

  /** Upserting adds exactly the listed identifiers that were not there yet. */
  lemma {:induction false} UpsertAllKeys(users: map<UserId, UserRow>, team: TeamName, members: seq<User>)
    ensures UpsertAll(users, team, members).Keys == users.Keys + MemberIds(members)
    decreases |members|
  {
    if members != [] {
      UpsertAllKeys(users, team, members[..|members| - 1]);
      MemberIdsSnoc(members);
    }
  }

  /** A user that is not listed keeps its row. */
  lemma {:induction false} UpsertAllKeeps(users: map<UserId, UserRow>, team: TeamName, members: seq<User>, u: UserId)
    requires u in users && u !in MemberIds(members)
    ensures u in UpsertAll(users, team, members) && UpsertAll(users, team, members)[u] == users[u]
    decreases |members|
  {
    if members != [] {
      MemberIdsSnoc(members);
      UpsertAllKeeps(users, team, members[..|members| - 1], u);
    }
  }

  /** A listed user is now in `team` (moved if it was elsewhere, never duplicated),
      with the name and activity flag of its last listing. */
  lemma {:induction false} UpsertAllLastWins(users: map<UserId, UserRow>, team: TeamName, members: seq<User>, k: nat)
    requires k < |members|
    requires forall j :: k < j < |members| ==> members[j].id != members[k].id
    ensures members[k].id in UpsertAll(users, team, members)
    ensures UpsertAll(users, team, members)[members[k].id] == UserRowOf(members[k], team)
    ensures UpsertAll(users, team, members)[members[k].id].teamName == team
    decreases |members|
  {
    var init := members[..|members| - 1];
    if k < |members| - 1 {
      assert init[k] == members[k];
      UpsertAllLastWins(users, team, init, k);
    }
  }

  /** Upserting a member into an existing team keeps the invariant and the
      evolution rule. */
  lemma UpsertKeepsValid(db: Db, team: TeamName, m: User)
    requires DbValid(db) && team in db.teams
    ensures var after := db.(users := db.users[m.id := UserRowOf(m, team)]);
      DbValid(after) && Evolves(db, after)
  {
    var after := db.(users := db.users[m.id := UserRowOf(m, team)]);
    forall i | 0 <= i < |db.reviewers|
      ensures RowConsistent(after, db.reviewers[i])
    {
      assert RowConsistent(db, db.reviewers[i]);
    }
  }

  // ---------------------------------------------------------------- listings

  /** What `GetTeam` returns as members: exactly the users of `team`, sorted by
      identifier, with identifier, name and activity flag (the team name is not
      read back and stays empty). */
  predicate TeamListing(users: map<UserId, UserRow>, team: TeamName, ms: seq<User>) {
    && SortedById(ms)
    && (forall i :: 0 <= i < |ms| ==>
          && ms[i].id in users
          && users[ms[i].id].teamName == team
          && ms[i] == User(ms[i].id, users[ms[i].id].username, "", users[ms[i].id].isActive))
    && (forall u :: u in users && users[u].teamName == team ==>
          exists i :: 0 <= i < |ms| && ms[i].id == u)
  }

  /** The member listing is determined by the users table: `GetTeam` has one answer. */
  lemma TeamListingUnique(users: map<UserId, UserRow>, team: TeamName, a: seq<User>, b: seq<User>)
    requires TeamListing(users, team, a) && TeamListing(users, team, b)
    ensures a == b
  {
    forall x
      ensures x in a <==> x in b
    {
      if x in a {
        var i :| 0 <= i < |a| && a[i] == x;
        var j :| 0 <= j < |b| && b[j].id == x.id;
      }
      if x in b {
        var i :| 0 <= i < |b| && b[i] == x;
        var j :| 0 <= j < |a| && a[j].id == x.id;
      }
    }
    SortedByIdUnique(a, b);
  }

  /** A pull request as returned with its reviewer list. */
  function View(id: PrId, row: PrRow, revs: seq<UserId>): PullRequest {
    PullRequest(id, row.name, row.authorId, row.status, revs, row.createdAt, row.mergedAt)
  }

  /** What `GetUserReviews` returns: every pull request that has a reviewer row
      for `user`, each once and without its reviewer list, newest first. */
  predicate ReviewListing(db: Db, user: UserId, out: seq<PullRequest>) {
    && NewestFirst(out)
    && DistinctIds(out)
    && (forall i :: 0 <= i < |out| ==>
          && out[i].id in db.prs
          && ReviewerRow(out[i].id, user) in db.reviewers
          && out[i] == View(out[i].id, db.prs[out[i].id], []))
    && (forall j :: 0 <= j < |db.reviewers| && db.reviewers[j].reviewerId == user ==>
          exists i :: 0 <= i < |out| && out[i].id == db.reviewers[j].prId)
  }

  /** The reviews listing built from the first `n` reviewer rows. */
  predicate ReviewsSoFar(db: Db, user: UserId, out: seq<PullRequest>, n: nat)
    requires n <= |db.reviewers|
  {
    && NewestFirst(out)
    && DistinctIds(out)
    && (forall i :: 0 <= i < |out| ==>
          && out[i].id in db.prs
          && ReviewerRow(out[i].id, user) in db.reviewers[..n]
          && out[i] == View(out[i].id, db.prs[out[i].id], []))
    && (forall j :: 0 <= j < n && db.reviewers[j].reviewerId == user ==>
          exists i :: 0 <= i < |out| && out[i].id == db.reviewers[j].prId)
  }

  /** A row of another reviewer adds nothing to the listing. */
  lemma ReviewsSkip(db: Db, user: UserId, out: seq<PullRequest>, n: nat)
    requires n < |db.reviewers| && db.reviewers[n].reviewerId != user
    requires ReviewsSoFar(db, user, out, n)
    ensures ReviewsSoFar(db, user, out, n + 1)
  {
    assert db.reviewers[..n + 1] == db.reviewers[..n] + [db.reviewers[n]];
  }

  /** A row of the reviewer adds its pull request, in creation-time order. */
  lemma ReviewsTake(db: Db, user: UserId, out: seq<PullRequest>, n: nat)
    requires DbValid(db) && n < |db.reviewers| && db.reviewers[n].reviewerId == user
    requires ReviewsSoFar(db, user, out, n)
    ensures db.reviewers[n].prId in db.prs
    ensures var row := db.reviewers[n];
      ReviewsSoFar(db, user, InsertNewestFirst(out, View(row.prId, db.prs[row.prId], [])), n + 1)
  {
    var rows := db.reviewers;
    var row := rows[n];
    assert RowConsistent(db, row);
    assert rows[..n + 1] == rows[..n] + [row];
    var pr := View(row.prId, db.prs[row.prId], []);
    forall k | 0 <= k < |out|
      ensures out[k].id != pr.id
    {
      var j :| 0 <= j < n && rows[..n][j] == ReviewerRow(out[k].id, user);
    }
    InsertNewestFirstDistinct(out, pr);
    var next := InsertNewestFirst(out, pr);
    forall j | 0 <= j < n + 1 && rows[j].reviewerId == user
      ensures exists k :: 0 <= k < |next| && next[k].id == rows[j].prId
    {
      if j == n {
        assert pr in next;
      } else {
        var k :| 0 <= k < |out| && out[k].id == rows[j].prId;
        assert out[k] in next;
      }
    }
    forall k | 0 <= k < |next|
      ensures next[k] in out || next[k] == pr
    {
      assert next[k] in next;
    }
  }

  /** After every row, the listing is the reviews listing. */
  lemma ReviewsDone(db: Db, user: UserId, out: seq<PullRequest>)
    requires ReviewsSoFar(db, user, out, |db.reviewers|)
    ensures ReviewListing(db, user, out)
  {
    assert db.reviewers[..|db.reviewers|] == db.reviewers;
  }

  // ---------------------------------------------------------------- reassignment

  /** The reviewer rows after a reassignment: the old pair deleted, the new pair inserted. */
  function Reassigned(rows: seq<ReviewerRow>, p: PrId, from: UserId, to: UserId): seq<ReviewerRow> {
    Without(rows, ReviewerRow(p, from)) + [ReviewerRow(p, to)]
  }

  /** Swapping one reviewer of `p`: the rows stay unique, `p` keeps its number of
      reviewers, loses exactly `from` and gains exactly `to` (stored last), and no
      other pull request's reviewers change. */
  lemma ReassignedRows(rows: seq<ReviewerRow>, p: PrId, from: UserId, to: UserId)
    requires Distinct(rows)
    requires ReviewerRow(p, from) in rows && ReviewerRow(p, to) !in rows
    ensures var after := Reassigned(rows, p, from, to);
      && Distinct(after)
      && ReviewersOf(after, p) == RemoveAll(ReviewersOf(rows, p), from) + [to]
      && |ReviewersOf(after, p)| == |ReviewersOf(rows, p)|
      && Elems(ReviewersOf(after, p)) == Elems(ReviewersOf(rows, p)) - {from} + {to}
      && (forall q :: q != p ==> ReviewersOf(after, q) == ReviewersOf(rows, q))
  {
    ReassignedDistinct(rows, p, from, to);
    ReassignedOwnList(rows, p, from, to);
    ReviewersOfDistinct(rows, p);
    ReviewersOfMembership(rows, p, from);
    ReviewersOfMembership(rows, p, to);
    SwapOne(ReviewersOf(rows, p), from, to);
    forall q | q != p
      ensures ReviewersOf(Reassigned(rows, p, from, to), q) == ReviewersOf(rows, q)
    {
      var w := Without(rows, ReviewerRow(p, from));
      ReviewersOfWithout(rows, p, from, q);
      ReviewersOfAppend(w, ReviewerRow(p, to), q);
    }
  }

  lemma ReassignedDistinct(rows: seq<ReviewerRow>, p: PrId, from: UserId, to: UserId)
    requires Distinct(rows) && ReviewerRow(p, to) !in rows
    ensures Distinct(Reassigned(rows, p, from, to))
  {
    var w := Without(rows, ReviewerRow(p, from));
    WithoutMembers(rows, ReviewerRow(p, from));
    assert ReviewerRow(p, to) !in w;
    assert forall i :: 0 <= i < |w| ==> w[i] != ReviewerRow(p, to);
  }

  lemma ReassignedOwnList(rows: seq<ReviewerRow>, p: PrId, from: UserId, to: UserId)
    ensures ReviewersOf(Reassigned(rows, p, from, to), p) == RemoveAll(ReviewersOf(rows, p), from) + [to]
  {
    var w := Without(rows, ReviewerRow(p, from));
    ReviewersOfWithout(rows, p, from, p);
    ReviewersOfAppend(w, ReviewerRow(p, to), p);
  }

  /** Swapping a reviewer of an open pull request for an existing user who
      neither wrote it nor reviews it yet keeps the invariant, and changes
      nothing a merged pull request could observe. */
  lemma ReassignKeepsValid(db: Db, p: PrId, from: UserId, to: UserId)
    requires DbValid(db) && p in db.prs && db.prs[p].status == Open
    requires from in ReviewersOf(db.reviewers, p)
    requires to in db.users && to != db.prs[p].authorId && to !in ReviewersOf(db.reviewers, p)
    ensures var after := db.(reviewers := Reassigned(db.reviewers, p, from, to));
      DbValid(after) && Evolves(db, after)
  {
    var after := db.(reviewers := Reassigned(db.reviewers, p, from, to));
    ReviewersOfMembership(db.reviewers, p, from);
    ReviewersOfMembership(db.reviewers, p, to);
    ReassignedRows(db.reviewers, p, from, to);
    WithoutMembers(db.reviewers, ReviewerRow(p, from));
    var rows := after.reviewers;
    forall k | 0 <= k < |rows|
      ensures RowConsistent(after, rows[k])
    {
      if k < |rows| - 1 {
        assert rows[k] in Without(db.reviewers, ReviewerRow(p, from));
        assert rows[k] in db.reviewers;
      }
    }
  }

  /** The list a reassignment returns and the list stored afterwards hold the
      same reviewers, the same number of times. */
  lemma ReturnedMatchesStoredAsSet(rows: seq<ReviewerRow>, p: PrId, from: UserId, to: UserId)
    requires Distinct(rows)
    requires ReviewerRow(p, from) in rows && ReviewerRow(p, to) !in rows
    ensures var cur := ReviewersOf(rows, p);
      var stored := ReviewersOf(Reassigned(rows, p, from, to), p);
      && |Replaced(cur, from, to)| == |stored|
      && Elems(Replaced(cur, from, to)) == Elems(stored)
  {
    var cur := ReviewersOf(rows, p);
    ReviewersOfDistinct(rows, p);
    ReviewersOfMembership(rows, p, from);
    ReviewersOfMembership(rows, p, to);
    var k :| 0 <= k < |cur| && cur[k] == from;
    ReplacedSwapsOne(cur, from, to, k);
    ReassignedRows(rows, p, from, to);
  }

  /** When the replaced reviewer is the last one listed, the returned and the
      stored list are the same. */
  lemma ReturnedMatchesStoredWhenLast(rows: seq<ReviewerRow>, p: PrId, from: UserId, to: UserId)
    requires Distinct(rows)
    requires ReviewerRow(p, from) in rows && ReviewerRow(p, to) !in rows
    requires var cur := ReviewersOf(rows, p); cur != [] && cur[|cur| - 1] == from
    ensures Replaced(ReviewersOf(rows, p), from, to) == ReviewersOf(Reassigned(rows, p, from, to), p)
  {
    var cur := ReviewersOf(rows, p);
    ReviewersOfDistinct(rows, p);
    assert cur == cur[..|cur| - 1] + [from];
    ReplacedLast(cur, from, to);
    ReassignedRows(rows, p, from, to);
  }

  /** The returned order and the stored order can differ: replacing the first
      of two reviewers returns the newcomer first, while the database lists it
      after the remaining reviewer, its row being the newest. */
  lemma ReturnedOrderDiffersFromStored()
    ensures var rows := [ReviewerRow("p1", "b"), ReviewerRow("p1", "c")];
      && Replaced(ReviewersOf(rows, "p1"), "b", "d") == ["d", "c"]
      && ReviewersOf(Reassigned(rows, "p1", "b", "d"), "p1") == ["c", "d"]
  {
    var b, c, d := ReviewerRow("p1", "b"), ReviewerRow("p1", "c"), ReviewerRow("p1", "d");
    var rows := [b, c];
    ReviewersOfTwo("p1", "b", "c");
    assert rows[..1] == [b] && [b][..0] == [];
    assert Without([b], b) == [];
    assert Without(rows, b) == [c];
    assert Reassigned(rows, "p1", "b", "d") == [c, d];
    ReviewersOfTwo("p1", "c", "d");
  }

  /** Two rows of one pull request list their reviewers in row order. */
  lemma ReviewersOfTwo(p: PrId, x: UserId, y: UserId)
    ensures ReviewersOf([ReviewerRow(p, x), ReviewerRow(p, y)], p) == [x, y]
  {
    ReviewersOfAppend([], ReviewerRow(p, x), p);
    ReviewersOfAppend([ReviewerRow(p, x)], ReviewerRow(p, y), p);
    assert [] + [ReviewerRow(p, x)] == [ReviewerRow(p, x)];
    assert [ReviewerRow(p, x)] + [ReviewerRow(p, y)] == [ReviewerRow(p, x), ReviewerRow(p, y)];
  }
}
