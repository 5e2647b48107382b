/** Rebuilding a user's interest vector from the rating table, and the
    greeting a new dialog opens with. */
module InterestUtils {
  import opened Common
  import opened UserModels
  import opened InterestModels
  import opened Sorting
  import opened Db

  /** The interest vector row `u` gets from the ratings: slot k holds the
      rating `u` gave interest k + 1 (the average over one row, since the
      pair is unique), 0 where there is none. */
  function RebuiltVector(ratings: seq<Rating>, u: UserId, size: nat): (v: seq<int>)
    ensures |v| == size
  {
    seq(size, k requires 0 <= k < size => SlotOf(ratings, u, k + 1))
  }

  /** The value slot `id - 1` gets: the rating `u` gave interest `id`, or 0. */
  function SlotOf(ratings: seq<Rating>, u: UserId, id: nat): int {
    match RatingOf(ratings, u, id)
    case Some(r) => r
    case None => 0
  }

  /** Some rating of `u` names an interest id beyond the vector's `size` slots,
      so `vec[interest_id - 1]` raises IndexError. */
  predicate SlotOutOfRange(ratings: seq<Rating>, u: UserId, size: nat) {
    exists j :: 0 <= j < |ratings| && ratings[j].user == u && ratings[j].interest > size
  }

  datatype RecalcOutcome =
    | Saved
    | SlotIndexError   // an interest id beyond the catalogue size
    | DimensionError   // the vector column holds exactly 15 values

  /** What `recalc_interest_vector` does to the tables, and how it ends. */
  function Recalc(t: Tables, u: UserId): (Tables, RecalcOutcome)
    requires u < |t.users|
  {
    if SlotOutOfRange(t.ratings, u, |t.interests|) then (t, SlotIndexError)
    else if |t.interests| != NUM_INTERESTS then (t, DimensionError)
    else (t.(users := t.users[u := t.users[u].(interestVector := Some(RebuiltVector(t.ratings, u, |t.interests|)))]), Saved)
  }

  /** Rebuilding keeps the tables valid. */
  lemma RecalcKeepsValid(t: Tables, u: UserId)
    requires ValidTables(t) && u < |t.users|
    ensures ValidTables(Recalc(t, u).0)
  {
  }

  /** A saved vector holds every rating of the user in its slot. */
  lemma RecalcStoresRatings(t: Tables, u: UserId)
    requires RatingsOk(t.ratings, |t.users|, t.interests) && CatalogueOk(t.interests) && u < |t.users|
    ensures Recalc(t, u).1 == Saved ==>
      && Recalc(t, u).0.users[u].interestVector.Some?
      && forall row :: row in t.ratings && row.user == u ==>
           1 <= row.interest <= NUM_INTERESTS
           && Recalc(t, u).0.users[u].interestVector.value[row.interest - 1] == row.rating
  {
    if Recalc(t, u).1 == Saved {
      var v := RebuiltVector(t.ratings, u, |t.interests|);
      forall row | row in t.ratings && row.user == u
        ensures 1 <= row.interest <= NUM_INTERESTS && v[row.interest - 1] == row.rating
      {
        var j :| 0 <= j < |t.ratings| && t.ratings[j] == row;
        assert InCatalogue(t.interests, t.ratings[j].interest);
        RatingOfUnique(t.ratings, |t.users|, t.interests, j);
      }
    }
  }

  /** `recalc_interest_vector`: a zero array as long as the catalogue, the
      user's ratings written into their slots, then only `interest_vector`
      saved back. */
  method RecalcInterestVector(db: Store, u: UserId) returns (out: RecalcOutcome)
    requires db.Valid() && u < |db.users|
    modifies db
    ensures (db.State(), out) == Recalc(old(db.State()), u)
    ensures db.Valid()
  {
    RecalcKeepsValid(db.State(), u);
    var size := |db.interests|;
    var ok, rebuilt := FillSlots(db.ratings, u, size, db.interests);
    if !ok {
      return SlotIndexError;
    }
    if size != NUM_INTERESTS {
      return DimensionError;
    }
    db.users := db.users[u := db.users[u].(interestVector := Some(rebuilt))];
    out := Saved;
  }

  /** The loop of `recalc_interest_vector` over `u`'s ratings: each rating is
      written into slot `interest_id - 1` of a zero array of `size` slots; an
      interest id beyond the array stops it with IndexError (`ok` false). */
  method FillSlots(ratings: seq<Rating>, u: UserId, size: nat, interests: seq<Interest>)
      returns (ok: bool, rebuilt: seq<int>)
    requires CatalogueOk(interests) && forall j :: 0 <= j < |ratings| ==> InCatalogue(interests, ratings[j].interest)
    ensures ok <==> !SlotOutOfRange(ratings, u, size)
    ensures ok ==> rebuilt == RebuiltVector(ratings, u, size)
  {
    var vec := new int[size](_ => 0);
    var i := 0;
    while i < |ratings|
      invariant 0 <= i <= |ratings|
      invariant !SlotOutOfRange(ratings[..i], u, size)
      invariant forall k :: 0 <= k < size ==> vec[k] == SlotOf(ratings[..i], u, k + 1)
    {
      var r := ratings[i];
      RatingOfAppend(ratings[..i], r, u);
      assert ratings[..i + 1] == ratings[..i] + [r];
      if r.user == u {
        assert r.interest >= 1 by {
          assert InCatalogue(interests, r.interest);
        }
        if r.interest - 1 >= size {
          return false, [];
        }
        vec[r.interest - 1] := r.rating;
      }
      assert !SlotOutOfRange(ratings[..i + 1], u, size) by {
        var pre := ratings[..i + 1];
        forall j | 0 <= j < i + 1 && pre[j].user == u ensures pre[j].interest <= size {
          if j < i { assert pre[j] == ratings[..i][j]; }
        }
      }
      i := i + 1;
    }
    assert ratings[..i] == ratings;
    rebuilt := vec[..];
    ok := true;
  }

  /** Appending a row to the ratings: it is the one found when it matches. */
  lemma {:induction false} RatingOfAppend(rs: seq<Rating>, x: Rating, u: UserId)
    ensures forall id :: RatingOf(rs + [x], u, id) == if x.user == u && x.interest == id then Some(x.rating) else RatingOf(rs, u, id)
  {
    if rs != [] {
      assert (rs + [x])[1..] == rs[1..] + [x];
      RatingOfAppend(rs[1..], x, u);
    }
  }

  /** `interest_vector`, or 15 zeros when it is null. */
  function VectorOrZeros(u: User): (v: seq<int>)
    requires ValidUserRow(u)
    ensures |v| == NUM_INTERESTS
    ensures u.interestVector.None? ==> forall k :: 0 <= k < |v| ==> v[k] == 0
  {
    if u.interestVector.Some? then u.interestVector.value else seq(NUM_INTERESTS, _ => 0)
  }

  function AbsDiff(a: int, b: int): nat {
    if a >= b then a - b else b - a
  }

  /** `np.argsort(np.abs(v1 - v2))[:3]`: the (at most) three slots where the
      two vectors differ least. NumPy's default sort is not stable, so which
      of several equally close slots it picks is not promised; the model
      takes the lowest slots. */
  function TopSlots(v1: seq<int>, v2: seq<int>): seq<nat>
    requires |v1| == |v2|
  {
    Prefix(SortIdx(DiffKey(v1, v2), |v1|), 3)
  }

  function DiffKey(v1: seq<int>, v2: seq<int>): nat -> real {
    (k: nat) => if k < |v1| && k < |v2| then AbsDiff(v1[k], v2[k]) as real else 0.0
  }

  /** The picked slots are min(3, n) distinct slots, and no slot left out
      differs less than a picked one. */
  lemma TopSlotsSmallest(v1: seq<int>, v2: seq<int>)
    requires |v1| == |v2|
    ensures var top := TopSlots(v1, v2);
      |top| == (if |v1| < 3 then |v1| else 3)
      && (forall p :: 0 <= p < |top| ==> top[p] < |v1|)
      && (forall p, q :: 0 <= p < q < |top| ==> top[p] != top[q])
      && (forall p, s: nat :: 0 <= p < |top| && s < |v1| && s !in top ==>
            AbsDiff(v1[top[p]], v2[top[p]]) <= AbsDiff(v1[s], v2[s]))
  {
    var key := DiffKey(v1, v2);
    var all := SortIdx(key, |v1|);
    var top := TopSlots(v1, v2);
    OrderedDistinct(key, all);
    assert top == all[..|top|];
    forall p | 0 <= p < |top| ensures top[p] < |v1| {
      assert top[p] == all[p] && all[p] in all;
    }
    forall p, s: nat | 0 <= p < |top| && s < |v1| && s !in top
      ensures AbsDiff(v1[top[p]], v2[top[p]]) <= AbsDiff(v1[s], v2[s])
    {
      assert s in all;
      var q :| 0 <= q < |all| && all[q] == s;
      assert q >= |top| by {
        assert forall k :: 0 <= k < |top| ==> top[k] == all[k] && top[k] in top;
      }
      assert Before(key, all[p], all[q]);
    }
  }

  /** The names of the catalogue interests whose slot (id - 1) is picked, in
      ascending id order: `Interest.objects.filter(id__in=...).order_by('id')`. */
  function NamesOf(interests: seq<Interest>, slots: seq<nat>): (r: seq<string>)
    ensures |r| <= |interests|
    ensures forall n :: n in r <==>
      exists k :: 0 <= k < |interests| && interests[k].id >= 1 && interests[k].id - 1 in slots && interests[k].name == n
  {
    if interests == [] then []
    else
      var rest := NamesOf(interests[1..], slots);
      assert forall k :: 1 <= k < |interests| ==> interests[k] == interests[1..][k - 1];
      var it := interests[0];
      (if it.id >= 1 && it.id - 1 in slots then [it.name] else []) + rest
  }

  const GREETING: string := "Привет, меня зовут "
  const COMMON_INTERESTS: string := ". Похоже, нам обоим интересны: "

  /** `build_intro_message`: the initiator's name, then the names of the
      interests the two rate most alike. */
  function BuildIntroMessage(initiator: User, target: User, interests: seq<Interest>): string
    requires ValidUserRow(initiator) && ValidUserRow(target)
  {
    var names := NamesOf(interests, TopSlots(VectorOrZeros(initiator), VectorOrZeros(target)));
    GREETING + initiator.firstName + " " + initiator.lastName + COMMON_INTERESTS + Join(", ", names)
  }

  /** The slots of the catalogue entries `NamesOf` keeps, in catalogue order. */
  function Picked(interests: seq<Interest>, slots: seq<nat>): (r: seq<nat>)
    ensures forall x :: x in r ==> x in slots
  {
    if interests == [] then []
    else
      var head := if interests[0].id >= 1 && interests[0].id - 1 in slots then [interests[0].id - 1] else [];
      head + Picked(interests[1..], slots)
  }

  /** One slot is picked per name kept. */
  lemma {:induction false} PickedLength(interests: seq<Interest>, slots: seq<nat>)
    ensures |Picked(interests, slots)| == |NamesOf(interests, slots)|
  {
    if interests != [] {
      PickedLength(interests[1..], slots);
    }
  }

  lemma {:induction false} PickedAbove(interests: seq<Interest>, slots: seq<nat>, lo: int)
    requires forall k :: 0 <= k < |interests| ==> interests[k].id > lo
    ensures forall x :: x in Picked(interests, slots) ==> x + 1 > lo
  {
    if interests != [] {
      PickedAbove(interests[1..], slots, lo);
    }
  }

  /** With increasing ids the picked slots increase. */
  lemma {:induction false} PickedIncreasing(interests: seq<Interest>, slots: seq<nat>)
    requires forall i, j :: 0 <= i < j < |interests| ==> interests[i].id < interests[j].id
    ensures Increasing(Picked(interests, slots))
  {
    if interests != [] {
      var rest := interests[1..];
      assert forall i, j :: 0 <= i < j < |rest| ==> rest[i].id < rest[j].id by {
        forall i, j | 0 <= i < j < |rest| ensures rest[i].id < rest[j].id {
          assert rest[i] == interests[i + 1] && rest[j] == interests[j + 1];
        }
      }
      PickedIncreasing(rest, slots);
      assert forall k :: 0 <= k < |rest| ==> rest[k].id > interests[0].id by {
        forall k | 0 <= k < |rest| ensures rest[k].id > interests[0].id {
          assert rest[k] == interests[k + 1];
        }
      }
      PickedAbove(rest, slots, interests[0].id);
      var pr := Picked(rest, slots);
      var r := Picked(interests, slots);
      if interests[0].id >= 1 && interests[0].id - 1 in slots {
        assert r == [interests[0].id - 1] + pr;
        ConsIncreasing(interests[0].id - 1, pr);
      } else {
        assert r == pr;
      }
    }
  }

  /** With a catalogue of increasing ids, no more interests are named than
      slots are picked. */
  lemma NamesAtMostSlots(interests: seq<Interest>, slots: seq<nat>)
    requires forall i, j :: 0 <= i < j < |interests| ==> interests[i].id < interests[j].id
    ensures |NamesOf(interests, slots)| <= |slots|
  {
    var picked := Picked(interests, slots);
    PickedLength(interests, slots);
    PickedIncreasing(interests, slots);
    DistinctCard(picked);
    SeqCard(slots);
    SubsetCard(Elems(picked), Elems(slots));
  }

  /** The greeting names at most three interests. */
  lemma BuildIntroNamesAtMostThree(initiator: User, target: User, interests: seq<Interest>)
    requires ValidUserRow(initiator) && ValidUserRow(target) && CatalogueOk(interests)
    ensures |NamesOf(interests, TopSlots(VectorOrZeros(initiator), VectorOrZeros(target)))| <= 3
  {
    NamesAtMostSlots(interests, TopSlots(VectorOrZeros(initiator), VectorOrZeros(target)));
  }
}
