# Reviewer assignment storage, in Dafny

This project models the storage layer of the pull-request reviewer-assignment
service. That layer keeps four tables and runs the service's operations over them:

- `teams` holds team names.
- `users` maps each user identifier to (username, team, active flag).
- `pull_requests` maps each identifier to (name, author, OPEN or MERGED,
  creation time, optional merge time).
- `pr_reviewers` holds (pull request, reviewer) pairs.

The operations are:

- create a team and upsert its members;
- list a team;
- switch a user's activity flag;
- list the pull requests a user reviews;
- open a pull request and draw up to two reviewers from the author's active teammates;
- merge a pull request;
- swap one reviewer for an active teammate of that reviewer.

`Storage.Storage` is a class with the four tables as fields:

- `teams` is a set.
- `users` and `prs` are maps.
- `reviewers` is a sequence of rows in insertion order.

Each public method is one atomic step. A failing step leaves the tables
unchanged, which is what the transaction rollback does. Every mutating method
preserves the invariant `Tables.DbValid`, which states:

- the declared references hold;
- the (pull request, reviewer) key is unique;
- a merge time is present exactly on merged pull requests;
- no author reviews their own pull request.

Every mutating method also satisfies `Tables.Evolves`: no team, user or pull
request is deleted (reviewer rows may be), and a merged pull request stays frozen together with its reviewers. Randomness is an
arbitrary choice (`:|`). `Selection.Shuffle` is the Fisher–Yates loop of the
random library, with the drawn index left open.

Modules:

- `Models` holds the entity types.
- `Order` is the order the model assumes for `ORDER BY user_id`: character
  codes compared lexicographically, as in the C collation.
- `Slices` holds `contains`, `replaceInSlice` and facts about duplicate-free sequences.
- `Selection` holds the random draws.
- `Listing` holds the two sorted listings.
- `Tables` holds the database as a value, its invariant, the queries and the value lemmas.
- `Storage` holds the class.
- `Scenarios` holds merging twice and small example runs on a fresh database.

## Model

| member | source | states |
|---|---|---|
| Order.LessIrreflexive | internal/storage/storage.go:97 | no identifier sorts before itself |
| Order.LessAsymmetric | internal/storage/storage.go:97 | two identifiers never sort before each other |
| Order.LessTransitive | internal/storage/storage.go:97 | the identifier order is transitive |
| Order.LessTotal | internal/storage/storage.go:97 | of two different identifiers one sorts first, so the member order is total |
| Slices.DistinctCardinality | internal/storage/init.go:54 | a duplicate-free list has as many elements as its set |
| Slices.DistinctMultiplicity | internal/storage/init.go:54 | in a duplicate-free list every value occurs at most once |
| Slices.SubMultisetOfDistinct | internal/storage/storage.go:491-494 | taking elements of a duplicate-free list no more often than they occur gives a duplicate-free list |
| Slices.Contains | internal/storage/storage.go:504-511 | `contains` is true exactly when the item is in the slice |
| Slices.Replaced | internal/storage/storage.go:513-523 | the replaced slice has the same length as the input |
| Slices.ReplaceInSlice | internal/storage/storage.go:513-523 | the loop builds exactly the slice with every occurrence of the old value replaced by the new one |
| Slices.ReplacedSwapsOne | internal/storage/storage.go:368-369 | in a duplicate-free list, the new reviewer lands at the old reviewer's index and every other index keeps its value; the list stays duplicate-free; its set loses the old reviewer and gains the new one |
| Slices.RemoveAllMembers | internal/storage/storage.go:349-352 | removing a value keeps exactly the other elements, keeps a duplicate-free list duplicate-free, and never lengthens the list |
| Slices.RemoveAllOfDistinct | internal/storage/storage.go:349-352 | removing a value present once from a duplicate-free list shortens it by exactly one and removes just that value from its set |
| Slices.RemoveAllNone | internal/storage/storage.go:349-352 | removing a value that is absent changes nothing |
| Slices.SwapOne | internal/storage/storage.go:349-362 | dropping a present value from a duplicate-free list and appending an absent one keeps the length and swaps exactly that value in the set |
| Selection.Shuffle | internal/storage/storage.go:487-489 | swapping in place keeps the array a permutation of its previous contents |
| Selection.SelectRandomReviewers | internal/storage/storage.go:479-495 | the result is a prefix of a permutation of the candidates; its length is the smaller of `max` and the number of candidates (so no candidates gives no reviewers); each element occurs no more often than among the candidates; it is duplicate-free when the candidates are |
| Selection.SelectRandomReviewer | internal/storage/storage.go:497-502 | the empty list gives the empty string; otherwise the result is one of the candidates |
| Listing.InsertById | internal/storage/storage.go:93-98 | inserting a member with a new identifier keeps the list sorted by identifier and adds exactly that member |
| Listing.SameTails | internal/storage/storage.go:93-98 | two sorted lists with the same members and the same first member have tails with the same members |
| Listing.SortedByIdUnique | internal/storage/storage.go:93-98 | two lists sorted by identifier with the same members are equal |
| Listing.InsertNewestFirst | internal/storage/storage.go:156-164 | inserting a pull request keeps the list newest first and adds exactly that pull request |
| Listing.InsertNewestFirstDistinct | internal/storage/storage.go:156-164 | inserting a pull request that is not yet listed keeps every pull request listed once |
| Tables.ColumnTime | internal/storage/init.go:41-42 | a stored time is a whole number of microseconds within half a microsecond of the clock reading |
| Tables.ColumnTimeIdempotent | internal/storage/storage.go:383-403 | storing a time that was read back keeps it |
| Tables.EvolvesTransitive | internal/storage/storage.go:281-306 | the per-operation evolution composes over a run, so a merged pull request stays merged with the same reviewers forever |
| Tables.ReviewersOfAppend | internal/storage/storage.go:414-438 | a new row adds its reviewer at the end of its own pull request's list and leaves other lists alone |
| Tables.ReviewersOfMembership | internal/storage/storage.go:417-422 | a user is in a pull request's reviewer list exactly when that pair's row exists |
| Tables.ReviewersOfDistinct | internal/storage/init.go:54 | unique rows give a duplicate-free reviewer list per pull request |
| Tables.NoReviewersOfAbsent | internal/storage/init.go:51 | a pull request that is not stored has no reviewer rows |
| Tables.ListedReviewerExists | internal/storage/init.go:51-52 | a listed reviewer is a stored user, on a stored pull request, and is not its author |
| Tables.RowsFor | internal/storage/storage.go:258-265 | one row per drawn reviewer |
| Tables.ReviewersOfRowsFor | internal/storage/storage.go:258-265 | after inserting the drawn reviewers' rows, the new pull request's reviewer list is exactly the drawn list in drawing order, and no other pull request's list changes |
| Tables.RowsForSnoc | internal/storage/storage.go:258-265 | the rows for a drawn list are the rows for all but its last reviewer followed by the last reviewer's row |
| Tables.CreatePrEvolves | internal/storage/storage.go:249-265 | inserting a new pull request with its drawn reviewers' rows gives it exactly those reviewers, leaves every other pull request's reviewers alone and keeps the evolution rule |
| Tables.InsertPrKeepsValid | internal/storage/storage.go:250-256 | inserting a new open, unmerged pull request by an existing author keeps the invariant |
| Tables.MergeKeepsValid | internal/storage/storage.go:293-298 | marking an open pull request merged at a given time keeps the invariant and the evolution rule |
| Tables.RowsForKeepsValid | internal/storage/storage.go:258-265 | inserting the rows of distinct existing non-authors for a pull request without reviewers keeps the invariant |
| Tables.WithoutMembers | internal/storage/storage.go:349-352 | the delete keeps exactly the other rows and keeps them unique |
| Tables.ReviewersOfWithout | internal/storage/storage.go:349-352 | deleting a pair removes that reviewer from its pull request's list and changes no other list |
| Tables.MemberIdsSnoc | internal/storage/storage.go:61-74 | the listed identifiers grow by the last member's identifier |
| Tables.UpsertAllKeys | internal/storage/storage.go:61-74 | the upsert loop adds exactly the listed identifiers that were not already there |
| Tables.UpsertAllKeeps | internal/storage/storage.go:61-74 | a user who is not listed keeps their row |
| Tables.UpsertAllLastWins | internal/storage/storage.go:61-74 | a listed user ends up in the new team with the name and activity flag of their last listing: moved, never duplicated |
| Tables.UpsertKeepsValid | internal/storage/storage.go:62-70 | one upsert into an existing team keeps the invariant and the evolution rule |
| Tables.TeamListingUnique | internal/storage/storage.go:93-116 | the member listing is determined by the users table |
| Tables.ReviewsSkip | internal/storage/storage.go:156-164 | a row of another reviewer adds nothing to the reviews listing built so far |
| Tables.ReviewsTake | internal/storage/storage.go:156-188 | a row of the reviewer adds its pull request, without reviewer list, keeping the listing newest first and free of repeats |
| Tables.ReviewsDone | internal/storage/storage.go:156-191 | the listing built from every row is the reviews listing |
| Tables.ReassignedRows | internal/storage/storage.go:349-362 | the rows stay unique; the stored list is the old list without the old reviewer plus the new one at the end; its length is unchanged; its set loses exactly the old reviewer and gains exactly the new one; other pull requests' lists are untouched |
| Tables.ReassignedDistinct | internal/storage/storage.go:349-362 | the delete-then-insert keeps the rows unique when the new pair is not yet stored |
| Tables.ReassignedOwnList | internal/storage/storage.go:349-362 | after the delete-then-insert the pull request's list is its old list without the old reviewer, followed by the new reviewer |
| Tables.ReassignKeepsValid | internal/storage/storage.go:349-362 | the delete-then-insert on an open pull request keeps the invariant and the evolution rule |
| Tables.ReturnedMatchesStoredAsSet | internal/storage/storage.go:368-369 | the returned list and the stored list have the same length and the same reviewers |
| Tables.ReturnedMatchesStoredWhenLast | internal/storage/storage.go:357-369 | when the replaced reviewer is the last one listed, the returned list equals the stored list |
| Tables.ReviewersOfTwo | internal/storage/storage.go:417-422 | two rows of one pull request list their reviewers in row order |
| Tables.ReturnedOrderDiffersFromStored | internal/storage/storage.go:357-369 | for rows (p1,b),(p1,c), replacing b by d returns [d, c], while the stored list is [c, d] |
| Storage.Storage.constructor | internal/storage/init.go:10-59 | a new database is empty and valid |
| Storage.Storage.CreateTeam | internal/storage/storage.go:42-77 | an existing team name fails with TeamExists and leaves every table unchanged; otherwise the team is added and the members are upserted in order; the invariant is kept |
| Storage.Storage.GetTeam | internal/storage/storage.go:79-117 | a missing team gives NotFound; otherwise the result is exactly the team's users, sorted by identifier |
| Storage.Storage.SetUserActive | internal/storage/storage.go:121-140 | an unknown user gives NotFound and no change; otherwise only that user's flag changes and the updated user is returned |
| Storage.Storage.GetUserReviews | internal/storage/storage.go:142-192 | an unknown user gives NotFound; otherwise the result holds exactly the pull requests that have a row for the user, each once, newest first |
| Storage.Storage.GetPRReviewers | internal/storage/storage.go:414-438 | the loop collects exactly the pull request's reviewers in row order |
| Storage.Storage.GetPRWithReviewers | internal/storage/storage.go:376-412 | a missing pull request gives NotFound; otherwise its stored row with its reviewer list |
| Storage.Storage.ActiveTeammates | internal/storage/storage.go:211-228 | the candidate query returns each active member of the team outside the excluded set exactly once |
| Storage.Storage.FindReplacementCandidates | internal/storage/storage.go:440-477 | a user is returned exactly when they are an active member of the given team and are not the author, the replaced reviewer or a current reviewer; each is returned once |
| Storage.Storage.CreatePR | internal/storage/storage.go:196-279 | an unknown author fails with AuthorNotFound, then a used identifier fails with PRExists, both without change. Otherwise the pull request is stored OPEN without a merge time, with the creation time as the column keeps it, and returned with the exact clock reading. It gets the smaller of 2 and the pool size of distinct reviewers, all active teammates of the author other than the author. The stored rows are exactly the returned reviewers |
| Storage.Storage.AppendReviewers | internal/storage/storage.go:258-265 | the insert loop appends one row per drawn reviewer, in drawing order, and keeps the invariant |
| Storage.Storage.MergePR | internal/storage/storage.go:281-306 | an unknown identifier gives NotFound; a merged pull request is returned as stored with no change; otherwise only its status and merge time change: the stored merge time is the one the column keeps; the returned one is the exact clock reading, with its reviewers |
| Storage.Storage.ReassignReviewer | internal/storage/storage.go:308-372 | errors come in the order NotFound, PRMerged, NotAssigned, NoCandidate, and none changes anything. On success the new reviewer is an active member of the old reviewer's team who is not the author, the old reviewer or a current reviewer. The stored rows are the reassigned rows, with the same count and the set changed by one. The returned list is the old list with the old reviewer replaced in place |
| Scenarios.MergeTwice | internal/storage/storage.go:281-306 | the second merge succeeds and changes nothing: the whole state is the one after the first call, or the one before it when the pull request was missing or already merged. The second answer is the first with the merge time as stored |
| Scenarios.PoolAllActive | internal/storage/storage.go:211-215 | with A, B and C active in T, the candidates for A's pull request are B and C |
| Scenarios.PoolCInactive | internal/storage/storage.go:211-215 | with C inactive, the only candidate for A's pull request is B |
| Scenarios.NoReplacementForB | internal/storage/storage.go:440-459 | while B and C review A's pull request nobody in T may replace B |
| Scenarios.NewTeamT | internal/storage/storage.go:42-77 | creating team T on an empty database stores exactly its three users |
| Scenarios.FullPoolThenNoCandidate | internal/storage/storage.go:196-372 | with A, B and C active in T, A's pull request gets exactly B and C, and replacing B fails with NoCandidate |
| Scenarios.InactiveMemberSkipped | internal/storage/storage.go:211-230 | with C inactive, A's pull request gets B alone |
| Scenarios.DuplicateIdRejected | internal/storage/storage.go:238-247 | a second pull request under the same identifier fails with PRExists. The first reads back as created, except its creation time, which reads back rounded to the microsecond |

## Reviewer order and the replacement team

The stored order of reviewers is decided by `ORDER BY assigned_at`
(internal/storage/storage.go:421), where `assigned_at` defaults to `NOW()`
(internal/storage/init.go:53). The model reads rows back in insertion order.

As a result, the list `ReassignReviewer` returns can differ from the list stored
after it. They are equal when the replaced reviewer was the last one listed
(`Tables.ReturnedMatchesStoredWhenLast`). The stored list has the new reviewer last. The returned list has the
new reviewer at the old one's index. `Tables.ReturnedOrderDiffersFromStored`
gives an example, and `Tables.ReturnedMatchesStoredAsSet` states what the two
lists do share.

The source's replacement pool is the old reviewer's team, not the author's
team (internal/storage/storage.go:324-332). The model keeps that choice.

## Left out

- The HTTP layer, the process entry point and the database connection setup are
  not part of this model. They are routing, JSON binding and pool
  configuration.
- Table creation in internal/storage/init.go is not modelled as code. Its keys
  and references appear only as the invariant `Tables.DbValid`.
- Database failures other than "no row" are not modelled. If the database
  fails, the source returns a wrapped driver error; the model has no such
  path. The TeamExists check compares the driver's error text
  (internal/storage/storage.go:55); the model uses a tagged error instead.
- Transactions, isolation and concurrent callers are not modelled. Each
  operation is one atomic step, and failure means "no change". The source
  reads the author and candidates of `CreatePR`, and the pull request state
  of `ReassignReviewer`, before its transaction starts. `MergePR` runs
  without a transaction. Interleavings that could exploit this are outside
  the model.
- The random draws are not modelled as uniform. The model states only
  membership, length and permutation facts that hold for every draw.
- Wall-clock time is a `nat` parameter (`now`, in nanoseconds) and there is no clock. The
  `updated_at` and `teams.created_at` columns are never read back and are
  dropped.
- `Tables.ColumnTime`: a tie at exactly half a microsecond is rounded up. The
  database may round such a tie differently. The time zone of a `TIMESTAMP`
  column without zone is not modelled. The stored instant is taken to be the
  instant written.
- `Storage.Storage.GetPRReviewers`: ties in `assigned_at` are not modelled,
  because insertion order stands in for `ORDER BY assigned_at`. All rows of
  one `CreatePR` transaction share the transaction's `NOW()`, so the database
  may list them in either order. The model lists them in drawing order.
- `Storage.Storage.GetTeam`: does not model the collation. `Order.Less`
  compares characters by code point, which matches the byte order of the C
  collation, not a locale collation.
- The `VARCHAR` length limits are not modelled, and a string that is too long
  is not rejected.
- `Selection.SelectRandomReviewers`: `max` is a `nat`. A negative `max`, which
  the only caller never passes, is not modelled.
- `Storage.Storage.GetTeam`: the members returned carry an empty team name,
  because the source's query does not read `team_name` back
  (internal/storage/storage.go:94, 107). The model shows the same.
- Slices are Dafny sequences, which are values. "The input slice is not
  modified" therefore holds by construction and is not stated.
