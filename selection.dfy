/** The random draws of the storage layer. The random source is modelled as an
    arbitrary choice: each draw may pick any index in range, so only the
    membership and length facts the code guarantees for every draw are stated. */
module Selection {

  import opened Models
  import opened Slices

  /** `rng.Shuffle` with the swapping closure: Fisher-Yates from the last
      position down to position 1, each step swapping with a drawn index. */
  method Shuffle(a: array<UserId>)
    modifies a
    ensures multiset(a[..]) == multiset(old(a[..]))
  {
    var i := a.Length - 1;
    while i > 0
      invariant i < a.Length
      invariant multiset(a[..]) == multiset(old(a[..]))
    {
      var j :| 0 <= j <= i;
      a[i], a[j] := a[j], a[i];
      i := i - 1;
    }
  }

  /** `selectRandomReviewers`: up to `max` candidates, the first ones of a
      shuffled copy of the candidate list. */
  method SelectRandomReviewers(candidates: seq<UserId>, max: nat) returns (r: seq<UserId>)
    ensures |r| == if |candidates| <= max then |candidates| else max
    ensures exists perm: seq<UserId> ::
      |perm| == |candidates| && multiset(perm) == multiset(candidates) && r == perm[..|r|]
    ensures multiset(r) <= multiset(candidates)
    ensures forall u :: u in r ==> u in candidates
    ensures Distinct(candidates) ==> Distinct(r)
  {
    if |candidates| == 0 {
      return [];
    }
    var shuffled := new UserId[|candidates|](i requires 0 <= i < |candidates| => candidates[i]);
    assert shuffled[..] == candidates;
    Shuffle(shuffled);
    ghost var perm := shuffled[..];
    if shuffled.Length <= max {
      r := shuffled[..];
    } else {
      r := shuffled[..max];
    }
    assert perm == r + perm[|r|..];
    assert multiset(perm) == multiset(r) + multiset(perm[|r|..]);
    forall u | u in r
      ensures u in candidates
    {
      assert u in multiset(r);
    }
    if Distinct(candidates) {
      SubMultisetOfDistinct(r, candidates);
    }
  }

  /** `selectRandomReviewer`: the empty string for an empty list, otherwise the
      candidate at a drawn index. */
  method SelectRandomReviewer(candidates: seq<UserId>) returns (r: UserId)
    ensures candidates == [] ==> r == ""
    ensures candidates != [] ==> r in candidates
  {
    if |candidates| == 0 {
      return "";
    }
    var k :| 0 <= k < |candidates|;
    r := candidates[k];
  }
}
