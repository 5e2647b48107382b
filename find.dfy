/** Candidate selection for the match feed (`find_candidates`). The similarity
    score and the geographic distance are computed outside the model and
    enter as functions. */
module Find {
  import opened Common
  import opened UserModels
  import opened Sorting
  import opened Db

  const DEFAULT_LIMIT: int := 10
  const DEFAULT_RADIUS_KM: nat := 50
  const DEFAULT_POOL_SIZE: nat := 200

  /** `me` may be offered `c`: an active, non-superuser other user whom `me`
      has neither liked nor rejected (for any reason). Only `me`'s own likes
      and rejections count. */
  predicate Eligible(t: Tables, me: UserId, c: UserId)
    requires c < |t.users|
  {
    t.users[c].isActive && !t.users[c].isSuperuser && c != me
    && !RejectedAny(t.rejects, me, c) && Like(me, c) !in t.likes
  }

  /** The eligible users by primary key (the unordered queryset, read in key order). */
  function EligibleUsers(t: Tables, me: UserId): (r: seq<UserId>)
    ensures forall c: nat :: c in r <==> c < |t.users| && Eligible(t, me, c)
    ensures forall p, q :: 0 <= p < q < |r| ==> r[p] < r[q]
  {
    AscendingComplete(set c: nat | c < |t.users| && Eligible(t, me, c), |t.users|);
    AscendingFacts(set c: nat | c < |t.users| && Eligible(t, me, c), |t.users|);
    Ascending(set c: nat | c < |t.users| && Eligible(t, me, c), |t.users|)
  }

  /** `c` has a location at most `radius` metres from `p`. */
  predicate Within(users: seq<User>, c: UserId, p: Point, radius: real, dist: (Point, Point) -> real) {
    c < |users| && users[c].location.Some? && dist(p, users[c].location.value) <= radius
  }

  /** `.filter(dist__lte=radius)`; a user without a location has no distance and is dropped. */
  function NearBy(users: seq<User>, xs: seq<UserId>, p: Point, radius: real, dist: (Point, Point) -> real): (r: seq<UserId>)
    ensures forall c :: c in r <==> c in xs && Within(users, c, p, radius, dist)
    ensures |r| <= |xs|
  {
    if xs == [] then []
    else (if Within(users, xs[0], p, radius, dist) then [xs[0]] else []) + NearBy(users, xs[1..], p, radius, dist)
  }

  function DistKey(users: seq<User>, xs: seq<UserId>, p: Point, dist: (Point, Point) -> real): nat -> real {
    (k: nat) => if k < |xs| then DistanceOf(users, xs[k], p, dist) else 0.0
  }

  function DistanceOf(users: seq<User>, c: UserId, p: Point, dist: (Point, Point) -> real): real {
    if c < |users| && users[c].location.Some? then dist(p, users[c].location.value) else 0.0
  }

  /** `.order_by('dist')`, ties kept in key order. */
  function ByDistance(users: seq<User>, xs: seq<UserId>, p: Point, dist: (Point, Point) -> real): seq<UserId>
  {
    Arrange(xs, SortIdx(DistKey(users, xs, p, dist), |xs|))
  }

  /** The queryset before the pool cut: eligible users, and when `me` has a
      location only those within `radius_km` kilometres, nearest first. */
  function Candidates(t: Tables, me: UserId, radiusKm: nat, dist: (Point, Point) -> real): seq<UserId>
    requires me < |t.users|
  {
    var base := EligibleUsers(t, me);
    match t.users[me].location
    case None => base
    case Some(p) => ByDistance(t.users, NearBy(t.users, base, p, (radiusKm * 1000) as real, dist), p, dist)
  }

  /** `list(qs[:pool_size])` */
  function Pool(t: Tables, me: UserId, radiusKm: nat, poolSize: nat, dist: (Point, Point) -> real): seq<UserId>
    requires me < |t.users|
  {
    Prefix(Candidates(t, me, radiusKm, dist), poolSize)
  }

  /** `similarity(vec_me, c.interest_vector)` iterates over both vectors, so a
      null vector on either side raises TypeError once anything is scored. */
  predicate ScoreFails(users: seq<User>, me: UserId, pool: seq<UserId>)
    requires me < |users|
  {
    exists k :: 0 <= k < |pool| && (users[me].interestVector.None?
      || pool[k] >= |users| || users[pool[k]].interestVector.None?)
  }

  function ScoreOf(users: seq<User>, me: UserId, c: UserId, score: (seq<int>, seq<int>) -> real): real
    requires me < |users|
  {
    if c < |users| && users[me].interestVector.Some? && users[c].interestVector.Some?
    then score(users[me].interestVector.value, users[c].interestVector.value)
    else 0.0
  }

  function ScoreKey(users: seq<User>, me: UserId, pool: seq<UserId>, score: (seq<int>, seq<int>) -> real): nat -> real
    requires me < |users|
  {
    (k: nat) => if k < |pool| then -ScoreOf(users, me, pool[k], score) else 0.0
  }

  /** `scored.sort(key=score, reverse=True)`: highest score first, ties in pool order. */
  function Ranked(users: seq<User>, me: UserId, pool: seq<UserId>, score: (seq<int>, seq<int>) -> real): seq<UserId>
    requires me < |users|
  {
    Arrange(pool, SortIdx(ScoreKey(users, me, pool, score), |pool|))
  }

  /** `find_candidates(me, limit, alpha, geo_radius_km, pool_size)`; `None`
      stands for the TypeError a null interest vector causes. */
  function FindCandidates(t: Tables, me: UserId, limit: int, radiusKm: nat, poolSize: nat,
                          score: (seq<int>, seq<int>) -> real, dist: (Point, Point) -> real): Option<seq<UserId>>
    requires me < |t.users|
  {
    var pool := Pool(t, me, radiusKm, poolSize, dist);
    if ScoreFails(t.users, me, pool) then None
    else Some(Prefix(Ranked(t.users, me, pool, score), limit))
  }

  /** Every candidate returned is eligible: never `me`, an inactive user, a
      superuser, a user `me` liked or a user `me` rejected for any reason. */
  lemma ResultEligible(t: Tables, me: UserId, limit: int, radiusKm: nat, poolSize: nat,
                       score: (seq<int>, seq<int>) -> real, dist: (Point, Point) -> real)
    requires me < |t.users|
    ensures var r := FindCandidates(t, me, limit, radiusKm, poolSize, score, dist);
      r.Some? ==> forall c :: c in r.value ==> c < |t.users| && Eligible(t, me, c)
  {
    var pool := Pool(t, me, radiusKm, poolSize, dist);
    PoolEligible(t, me, radiusKm, poolSize, dist);
    ArrangeSorted(pool, ScoreKey(t.users, me, pool, score));
  }

  /** Only eligible users enter the pool. */
  lemma PoolEligible(t: Tables, me: UserId, radiusKm: nat, poolSize: nat, dist: (Point, Point) -> real)
    requires me < |t.users|
    ensures forall c :: c in Pool(t, me, radiusKm, poolSize, dist) ==> c < |t.users| && Eligible(t, me, c)
  {
    var base := EligibleUsers(t, me);
    var cands := Candidates(t, me, radiusKm, dist);
    assert forall c :: c in cands ==> c in base by {
      match t.users[me].location {
        case None =>
        case Some(p) =>
          var near := NearBy(t.users, base, p, (radiusKm * 1000) as real, dist);
          ArrangeSorted(near, DistKey(t.users, near, p, dist));
      }
    }
    var pool := Pool(t, me, radiusKm, poolSize, dist);
    forall c | c in pool ensures c in cands {
      var k :| 0 <= k < |pool| && pool[k] == c;
      assert cands[k] == c;
    }
  }

  /** A like the other user gave `me` does not exclude them: only `me`'s
      outgoing rows count. */
  lemma IncomingLikeIgnored(t: Tables, me: UserId, c: UserId, limit: int, radiusKm: nat, poolSize: nat,
                            score: (seq<int>, seq<int>) -> real, dist: (Point, Point) -> real)
    requires me < |t.users| && c != me
    ensures FindCandidates(t.(likes := t.likes + [Like(c, me)]), me, limit, radiusKm, poolSize, score, dist)
         == FindCandidates(t, me, limit, radiusKm, poolSize, score, dist)
  {
    var t' := t.(likes := t.likes + [Like(c, me)]);
    assert forall x: nat :: x < |t.users| ==> (Eligible(t', me, x) <==> Eligible(t, me, x));
    assert (set x: nat | x < |t'.users| && Eligible(t', me, x)) == (set x: nat | x < |t.users| && Eligible(t, me, x));
  }

  /** With a location, every candidate in the pool lies within
      `radius_km * 1000` metres, and the pool is ordered by ascending distance. */
  lemma PoolNearestFirst(t: Tables, me: UserId, radiusKm: nat, poolSize: nat, dist: (Point, Point) -> real)
    requires me < |t.users| && t.users[me].location.Some?
    ensures var p := t.users[me].location.value; var pool := Pool(t, me, radiusKm, poolSize, dist);
      (forall c :: c in pool ==> Within(t.users, c, p, (radiusKm * 1000) as real, dist))
      && (forall i, j :: 0 <= i < j < |pool| ==> DistanceOf(t.users, pool[i], p, dist) <= DistanceOf(t.users, pool[j], p, dist))
  {
    var cands := Candidates(t, me, radiusKm, dist);
    CandidatesNearestFirst(t, me, radiusKm, dist);
    var pool := Pool(t, me, radiusKm, poolSize, dist);
    assert pool == cands[..|pool|];
    forall c | c in pool ensures c in cands {
      var k :| 0 <= k < |pool| && pool[k] == c;
      assert cands[k] == c;
    }
  }

  /** The same for the whole queryset before the pool cut. */
  lemma CandidatesNearestFirst(t: Tables, me: UserId, radiusKm: nat, dist: (Point, Point) -> real)
    requires me < |t.users| && t.users[me].location.Some?
    ensures var p := t.users[me].location.value; var cands := Candidates(t, me, radiusKm, dist);
      (forall c :: c in cands ==> Within(t.users, c, p, (radiusKm * 1000) as real, dist))
      && (forall i, j :: 0 <= i < j < |cands| ==> DistanceOf(t.users, cands[i], p, dist) <= DistanceOf(t.users, cands[j], p, dist))
  {
    var p := t.users[me].location.value;
    var base := EligibleUsers(t, me);
    var near := NearBy(t.users, base, p, (radiusKm * 1000) as real, dist);
    var key := DistKey(t.users, near, p, dist);
    var order := SortIdx(key, |near|);
    var cands := Arrange(near, order);
    assert cands == Candidates(t, me, radiusKm, dist);
    ArrangeSorted(near, key);
    forall i, j | 0 <= i < j < |cands| ensures DistanceOf(t.users, cands[i], p, dist) <= DistanceOf(t.users, cands[j], p, dist) {
      assert order[i] in order && order[j] in order;
      assert key(order[i]) <= key(order[j]);
    }
  }

  /** At most `pool_size` users are scored, and at most `limit` returned (none
      for a negative limit beyond the pool's length, as Python slicing does). */
  lemma Bounds(t: Tables, me: UserId, limit: int, radiusKm: nat, poolSize: nat,
               score: (seq<int>, seq<int>) -> real, dist: (Point, Point) -> real)
    requires me < |t.users|
    ensures |Pool(t, me, radiusKm, poolSize, dist)| <= poolSize
    ensures var r := FindCandidates(t, me, limit, radiusKm, poolSize, score, dist);
      r.Some? ==> |r.value| <= |Pool(t, me, radiusKm, poolSize, dist)| && (limit >= 0 ==> |r.value| <= limit)
    ensures Pool(t, me, radiusKm, poolSize, dist) == [] ==> FindCandidates(t, me, limit, radiusKm, poolSize, score, dist) == Some([])
  {
    var pool := Pool(t, me, radiusKm, poolSize, dist);
    var ranked := Ranked(t.users, me, pool, score);
    assert |ranked| == |pool|;
  }

  /** The result is a prefix of the pool ranked by non-increasing score; the
      sort is stable, so equal scores keep pool order. */
  lemma {:induction false} RankedByScore(t: Tables, me: UserId, limit: int, radiusKm: nat, poolSize: nat,
                       score: (seq<int>, seq<int>) -> real, dist: (Point, Point) -> real)
    requires me < |t.users|
    ensures var pool := Pool(t, me, radiusKm, poolSize, dist);
      var r := FindCandidates(t, me, limit, radiusKm, poolSize, score, dist);
      r.Some? ==>
        r.value == Ranked(t.users, me, pool, score)[..|r.value|]
        && (forall i, j :: 0 <= i < j < |r.value| ==> ScoreOf(t.users, me, r.value[i], score) >= ScoreOf(t.users, me, r.value[j], score))
  {
    var pool := Pool(t, me, radiusKm, poolSize, dist);
    var key := ScoreKey(t.users, me, pool, score);
    var order := SortIdx(key, |pool|);
    var ranked := Arrange(pool, order);
    ArrangeSorted(pool, key);
    forall i, j | 0 <= i < j < |ranked| ensures ScoreOf(t.users, me, ranked[i], score) >= ScoreOf(t.users, me, ranked[j], score) {
      assert order[i] in order && order[j] in order;
      assert key(order[i]) <= key(order[j]);
    }
  }

  /** Scoring fails exactly when a pooled user, or `me`, has a null interest vector. */
  lemma ScoreFailsIff(t: Tables, me: UserId, limit: int, radiusKm: nat, poolSize: nat,
                      score: (seq<int>, seq<int>) -> real, dist: (Point, Point) -> real)
    requires me < |t.users|
    ensures var pool := Pool(t, me, radiusKm, poolSize, dist);
      FindCandidates(t, me, limit, radiusKm, poolSize, score, dist).None? <==>
        pool != [] && (t.users[me].interestVector.None?
          || exists c :: c in pool && c < |t.users| && t.users[c].interestVector.None?)
  {
    var pool := Pool(t, me, radiusKm, poolSize, dist);
    PoolEligible(t, me, radiusKm, poolSize, dist);
    if ScoreFails(t.users, me, pool) {
      var k :| 0 <= k < |pool| && (t.users[me].interestVector.None?
        || pool[k] >= |t.users| || t.users[pool[k]].interestVector.None?);
      assert pool[k] in pool;
    }
    if pool != [] && t.users[me].interestVector.None? {
      assert 0 < |pool|;
    }
    if exists c :: c in pool && c < |t.users| && t.users[c].interestVector.None? {
      var c :| c in pool && c < |t.users| && t.users[c].interestVector.None?;
      var k :| 0 <= k < |pool| && pool[k] == c;
      assert ScoreFails(t.users, me, pool);
    }
  }
}
