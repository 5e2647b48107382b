/** The serializers of the REST API: what a viewer sees of a profile, how a
    profile edit is read and applied, and the computed fields of the group,
    dialog, message and match serializers. */
module Serializers {
  import opened Common
  import opened UserModels
  import opened InterestModels
  import opened GroupModels
  import opened DialogModels
  import opened Db
  import opened InterestUtils

  // ---------------------------------------------------------------- privacy

  /** The fields guarded by privacy flags 0..8, in flag order. */
  const PRIVATE_FIELDS: seq<string> :=
    ["profile_photo", "email", "phone_number", "date_of_birth", "bio", "tg_link", "vk_link", "city_name", "is_offline"]

  /** `list(raw)` (`[]` for null) extended with 1s to nine flags. */
  function PadPrivacy(raw: Option<seq<int>>): (v: seq<int>)
    ensures raw.None? ==> v == seq(NUM_PRIVACY, _ => 1)
    ensures raw.Some? ==>
      && |v| == (if |raw.value| < NUM_PRIVACY then NUM_PRIVACY else |raw.value|)
      && v[..|raw.value|] == raw.value
      && forall k :: |raw.value| <= k < |v| ==> v[k] == 1
  {
    var given := if raw.Some? then raw.value else [];
    if |given| < NUM_PRIVACY then given + seq(NUM_PRIVACY - |given|, _ => 1) else given
  }

  /** No two flags guard the same field. */
  lemma PrivateFieldsDistinct()
    ensures forall i, j :: 0 <= i < j < |PRIVATE_FIELDS| ==> PRIVATE_FIELDS[i] != PRIVATE_FIELDS[j]
  {
    forall i, j | 0 <= i < j < |PRIVATE_FIELDS| ensures PRIVATE_FIELDS[i] != PRIVATE_FIELDS[j] {
      var a, b := PRIVATE_FIELDS[i], PRIVATE_FIELDS[j];
      assert |a| != |b| || a[0] != b[0];
    }
  }

  /** `if not flag: d.pop(key, None)` */
  function PopIfZero(d: map<string, Json>, flag: int, key: string): map<string, Json> {
    if flag == 0 then d - {key} else d
  }

  /** `photo` after the pops of flags 1..n-1, in order. */
  function HideUpTo(photo: map<string, Json>, vec: seq<int>, n: nat): map<string, Json>
    requires 1 <= n <= NUM_PRIVACY <= |vec|
  {
    if n == 1 then photo else PopIfZero(HideUpTo(photo, vec, n - 1), vec[n - 1], PRIVATE_FIELDS[n - 1])
  }

  /** After the pops of flags 1..n-1, a key remains iff no zero flag among
      them guards it, and keeps its value. */
  lemma {:induction false} HideUpToKeys(photo: map<string, Json>, vec: seq<int>, n: nat)
    requires 1 <= n <= NUM_PRIVACY <= |vec|
    ensures forall key :: key in HideUpTo(photo, vec, n) <==>
      key in photo && !(exists i :: 1 <= i < n && PRIVATE_FIELDS[i] == key && vec[i] == 0)
    ensures forall key :: key in HideUpTo(photo, vec, n) ==> HideUpTo(photo, vec, n)[key] == photo[key]
  {
    if n > 1 {
      HideUpToKeys(photo, vec, n - 1);
    }
  }

  /** The hiding block of `to_representation`: a zero flag 0 blanks the
      photo, a zero flag i (1..8) removes field i; nothing else changes. */
  function HidePrivate(data: map<string, Json>, vec: seq<int>): (r: map<string, Json>)
    requires |vec| >= NUM_PRIVACY
    ensures vec[0] == 0 ==> "profile_photo" in r && r["profile_photo"] == JNull
    ensures vec[0] != 0 ==> ("profile_photo" in r <==> "profile_photo" in data)
    ensures forall i :: 1 <= i < NUM_PRIVACY ==> (PRIVATE_FIELDS[i] in r <==> PRIVATE_FIELDS[i] in data && vec[i] != 0)
    ensures forall key :: key in data && key !in PRIVATE_FIELDS ==> key in r
    ensures forall key :: key in r ==> key in data || key == "profile_photo"
    ensures forall key :: key in r && !(key == "profile_photo" && vec[0] == 0) ==> r[key] == data[key]
  {
    PrivateFieldsDistinct();
    var photo := if vec[0] == 0 then data["profile_photo" := JNull] else data;
    HideUpToKeys(photo, vec, NUM_PRIVACY);
    HideUpTo(photo, vec, NUM_PRIVACY)
  }

  /** One entry of `interests_ratings`. */
  function RatingEntry(it: Interest, rating: int): Json {
    JObj(map["interest_id" := JNum(it.id), "interest_name" := JStr(it.name), "rating" := JNum(rating)])
  }

  /** The rating shown for interest `id`: the owner's, or 1 when unrated. */
  function RatingShown(ratings: seq<Rating>, owner: UserId, id: nat): int {
    match RatingOf(ratings, owner, id)
    case Some(x) => x
    case None => 1
  }

  /** `interests_ratings` as rendered: every interest of the catalogue, in
      catalogue order, with its shown rating. */
  function InterestsRatings(interests: seq<Interest>, ratings: seq<Rating>, owner: UserId): (r: seq<Json>)
    ensures |r| == |interests|
    ensures forall k :: 0 <= k < |interests| ==> r[k] == RatingEntry(interests[k], RatingShown(ratings, owner, interests[k].id))
  {
    seq(|interests|, k requires 0 <= k < |interests| => RatingEntry(interests[k], RatingShown(ratings, owner, interests[k].id)))
  }

  /** Every shown rating is in 1..5: the stored one where there is one, 1 otherwise. */
  lemma RatingShownInRange(t: Tables, owner: UserId, id: nat)
    requires ValidTables(t)
    ensures MIN_RATING <= RatingShown(t.ratings, owner, id) <= MAX_RATING
    ensures RatingOf(t.ratings, owner, id).Some? ==> RatingShown(t.ratings, owner, id) == RatingOf(t.ratings, owner, id).value
    ensures RatingOf(t.ratings, owner, id).None? ==> RatingShown(t.ratings, owner, id) == 1
  {
    if RatingOf(t.ratings, owner, id).Some? {
      RatingOfInRange(t.ratings, owner, id, |t.users|, t.interests);
    }
  }

  lemma {:induction false} RatingOfInRange(ratings: seq<Rating>, u: UserId, id: nat, nUsers: nat, interests: seq<Interest>)
    requires RatingsOk(ratings, nUsers, interests)
    requires RatingOf(ratings, u, id).Some?
    ensures MIN_RATING <= RatingOf(ratings, u, id).value <= MAX_RATING
  {
    if ratings != [] && RatingOf(ratings[1..], u, id).Some? {
      RatingOfInRange(ratings[1..], u, id, nUsers, interests);
    }
  }

  /** `ProfileSerializer.to_representation`: `data` is the plain rendering of
      the owner's columns; the ratings list is rebuilt, and a viewer who is
      neither the owner nor liked by the owner sees only what the privacy
      vector allows. */
  function ToRepresentation(t: Tables, owner: UserId, viewer: UserId, data: map<string, Json>): map<string, Json>
    requires owner < |t.users|
  {
    var vec := PadPrivacy(t.users[owner].privacy);
    var full := data["interests_ratings" := JArr(InterestsRatings(t.interests, t.ratings, owner))];
    if viewer != owner && Like(owner, viewer) !in t.likes then HidePrivate(full, vec) else full
  }

  /** `to_representation` as written: pad the flags, rebuild the ratings
      list, then hide what the flags ask for. */
  method Represent(db: Store, owner: UserId, viewer: UserId, data: map<string, Json>) returns (r: map<string, Json>)
    requires owner < |db.users|
    ensures r == ToRepresentation(db.State(), owner, viewer, data)
  {
    var raw := db.users[owner].privacy;
    var vec := if raw.Some? then raw.value else [];
    if |vec| < NUM_PRIVACY {
      vec := vec + seq(NUM_PRIVACY - |vec|, _ => 1);
    }
    assert vec == PadPrivacy(raw);
    r := data["interests_ratings" := JArr(InterestsRatings(db.interests, db.ratings, owner))];
    if viewer != owner && Like(owner, viewer) !in db.likes {
      r := HideFields(r, vec);
    }
  }

  /** The nine `if not vec[i]` statements, in order. */
  method HideFields(data: map<string, Json>, vec: seq<int>) returns (r: map<string, Json>)
    requires |vec| >= NUM_PRIVACY
    ensures r == HidePrivate(data, vec)
  {
    r := data;
    if vec[0] == 0 { r := r["profile_photo" := JNull]; }
    ghost var photo := r;
    r := PopIfZero(r, vec[1], "email");
    HideUpToStep(photo, vec, 2);
    r := PopIfZero(r, vec[2], "phone_number");
    HideUpToStep(photo, vec, 3);
    r := PopIfZero(r, vec[3], "date_of_birth");
    HideUpToStep(photo, vec, 4);
    r := PopIfZero(r, vec[4], "bio");
    HideUpToStep(photo, vec, 5);
    r := PopIfZero(r, vec[5], "tg_link");
    HideUpToStep(photo, vec, 6);
    r := PopIfZero(r, vec[6], "vk_link");
    HideUpToStep(photo, vec, 7);
    r := PopIfZero(r, vec[7], "city_name");
    HideUpToStep(photo, vec, 8);
    r := PopIfZero(r, vec[8], "is_offline");
    HideUpToStep(photo, vec, 9);
  }

  /** One more pop on top of the pops of flags 1..n-2. */
  lemma HideUpToStep(photo: map<string, Json>, vec: seq<int>, n: nat)
    requires 2 <= n <= NUM_PRIVACY <= |vec|
    ensures HideUpTo(photo, vec, n) == PopIfZero(HideUpTo(photo, vec, n - 1), vec[n - 1], PRIVATE_FIELDS[n - 1])
  {
  }

  /** The owner, and anyone the owner liked, see every field; so does anyone
      when the owner never set a privacy vector. */
  lemma FullViewWhenAllowed(t: Tables, owner: UserId, viewer: UserId, data: map<string, Json>)
    requires owner < |t.users|
    requires viewer == owner || Like(owner, viewer) in t.likes || t.users[owner].privacy.None?
    ensures ToRepresentation(t, owner, viewer, data) == data["interests_ratings" := JArr(InterestsRatings(t.interests, t.ratings, owner))]
  {
    if viewer != owner && Like(owner, viewer) !in t.likes {
      var vec := PadPrivacy(t.users[owner].privacy);
      assert forall i :: 0 <= i < NUM_PRIVACY ==> vec[i] == 1;
      HideNothing(data["interests_ratings" := JArr(InterestsRatings(t.interests, t.ratings, owner))], vec);
    }
  }

  /** With no zero flag nothing is hidden. */
  lemma HideNothing(data: map<string, Json>, vec: seq<int>)
    requires |vec| >= NUM_PRIVACY && forall i :: 0 <= i < NUM_PRIVACY ==> vec[i] != 0
    ensures HidePrivate(data, vec) == data
  {
    var r := HidePrivate(data, vec);
    forall key ensures key in r <==> key in data {
      if key in data && key in PRIVATE_FIELDS {
        var i :| 0 <= i < |PRIVATE_FIELDS| && PRIVATE_FIELDS[i] == key;
      }
    }
  }

  /** A viewer the owner has not liked never sees a field whose flag is 0,
      and sees the photo as null. */
  lemma StrangerSeesOnlyAllowed(t: Tables, owner: UserId, viewer: UserId, data: map<string, Json>, i: nat)
    requires owner < |t.users| && viewer != owner && Like(owner, viewer) !in t.likes
    requires i < NUM_PRIVACY && PadPrivacy(t.users[owner].privacy)[i] == 0
    ensures i == 0 ==> ToRepresentation(t, owner, viewer, data)["profile_photo"] == JNull
    ensures i > 0 ==> PRIVATE_FIELDS[i] !in ToRepresentation(t, owner, viewer, data)
  {
  }

  // ---------------------------------------------------------------- photo

  const ALLOWED_EXTENSIONS: seq<string> := ["jpg", "jpeg", "png", "webp"]
  const MAX_PHOTO_BYTES: nat := 15 * 1024 * 1024
  const BAD_FORMAT: string := "Допустимые форматы: JPG, PNG, WEBP."
  const TOO_LARGE: string := "Файл должен быть ≤ 15 МБ."

  datatype Verdict = Accepted | Refused(message: string)

  /** `s.split('.')[-1]`: the text after the last dot, or all of `s`. */
  function AfterLastDot(s: string): (r: string)
    ensures '.' !in r
    ensures |r| <= |s| && r == s[|s| - |r|..]
    ensures |r| < |s| ==> s[|s| - |r| - 1] == '.'
  {
    if s == [] then []
    else if s[|s| - 1] == '.' then []
    else
      var init := AfterLastDot(s[..|s| - 1]);
      assert init + [s[|s| - 1]] == s[|s| - |init| - 1..];
      init + [s[|s| - 1]]
  }

  /** The extension of `stem.ext` is `ext` when `ext` has no dot, whatever the stem. */
  lemma {:induction false} ExtensionAfterStem(stem: string, ext: string)
    requires '.' !in ext
    ensures AfterLastDot(stem + "." + ext) == ext
  {
    var s := stem + "." + ext;
    if ext == [] {
      assert s[|s| - 1] == '.';
    } else {
      var init := ext[..|ext| - 1];
      assert '.' !in init by {
        assert forall k :: 0 <= k < |init| ==> init[k] == ext[k];
      }
      ExtensionAfterStem(stem, init);
      assert s[..|s| - 1] == stem + "." + init;
      assert s[|s| - 1] == ext[|ext| - 1] != '.';
      assert init + [ext[|ext| - 1]] == ext;
    }
  }

  /** `validate_profile_photo`: the lower-cased extension must be one of
      jpg, jpeg, png, webp (checked first), and the size at most 15 MiB. */
  function ValidateProfilePhoto(name: string, size: nat): Verdict {
    var ext := Lower(AfterLastDot(name));
    if ext !in ALLOWED_EXTENSIONS then Refused(BAD_FORMAT)
    else if size > MAX_PHOTO_BYTES then Refused(TOO_LARGE)
    else Accepted
  }

  /** A photo named `stem.ext` is accepted iff its extension is allowed in
      any letter case and it is small enough; a wrong extension is reported
      before a wrong size. */
  lemma PhotoAcceptedIff(stem: string, ext: string, size: nat)
    requires '.' !in ext
    ensures ValidateProfilePhoto(stem + "." + ext, size) == Accepted <==>
      Lower(ext) in ALLOWED_EXTENSIONS && size <= MAX_PHOTO_BYTES
    ensures Lower(ext) !in ALLOWED_EXTENSIONS ==> ValidateProfilePhoto(stem + "." + ext, size) == Refused(BAD_FORMAT)
  {
    ExtensionAfterStem(stem, ext);
  }

  /** An upper-case `.JPG` of exactly 15 MiB passes. */
  lemma PhotoUpperCaseAccepted()
    ensures ValidateProfilePhoto("me.JPG", MAX_PHOTO_BYTES) == Accepted
  {
    assert AfterLastDot("me.JPG") == "JPG";
    assert Lower("JPG") == "jpg" == ALLOWED_EXTENSIONS[0];
  }

  /** A `.gif` is refused for its format, whatever its size. */
  lemma PhotoGifRefused(size: nat)
    ensures ValidateProfilePhoto("me.gif", size) == Refused(BAD_FORMAT)
  {
    assert AfterLastDot("me.gif") == "gif";
    assert Lower("gif") == "gif";
    assert forall e :: e in ALLOWED_EXTENSIONS ==> e[0] != 'g';
  }

  /** A `.png` one byte over 15 MiB is refused for its size. */
  lemma PhotoTooLargeRefused()
    ensures ValidateProfilePhoto("me.png", MAX_PHOTO_BYTES + 1) == Refused(TOO_LARGE)
  {
    assert AfterLastDot("me.png") == "png";
    assert Lower("png") == "png" == ALLOWED_EXTENSIONS[2];
  }

  // ---------------------------------------------------------------- computed fields

  /** `MessageSerializer.get_sender_name`: `"first last".strip()`, or the
      username when that is empty. */
  function SenderName(u: User): (r: string)
    ensures AllSpace(u.firstName + " " + u.lastName) ==> r == u.username
    ensures !AllSpace(u.firstName + " " + u.lastName) ==> r != [] && !IsSpace(r[0]) && !IsSpace(r[|r| - 1])
  {
    StripEmptyIffBlank(u.firstName + " " + u.lastName);
    var full := Strip(u.firstName + " " + u.lastName);
    if full != "" then full else u.username
  }

  /** With both names set and not padded, the sender name is "first last". */
  lemma SenderNameFull(u: User)
    requires u.firstName != [] && !IsSpace(u.firstName[0])
    requires u.lastName != [] && !IsSpace(u.lastName[|u.lastName| - 1])
    ensures SenderName(u) == u.firstName + " " + u.lastName
  {
    var s := u.firstName + " " + u.lastName;
    assert s[0] == u.firstName[0] && s[|s| - 1] == u.lastName[|u.lastName| - 1];
    assert TrimLeft(s) == s;
    assert TrimRight(s) == s;
  }

  /** The truth value of a vector column as loaded, a NumPy array: an empty
      array is false, a one-element array is its element's, and a longer one
      raises ValueError (`None`). */
  function ArrayTruth(v: seq<int>): Option<bool> {
    if |v| == 0 then Some(false) else if |v| == 1 then Some(v[0] != 0) else None
  }

  /** The truth value of an image column: a file whose name is null or
      empty is false, and reading its `.url` raises ValueError. */
  predicate HasPhoto(u: User) {
    u.photo.Some? && u.photo.value != ""
  }

  /** `MatchSerializer.get_profile_photo` as written:
      `privacy_settings_vector or [1] * 9` asks for the truth value of the
      loaded array, so a stored nine-flag vector raises; `None` is that
      error. Without a stored vector the photo is shown when there is one. */
  function MatchProfilePhotoAsWritten(u: User): (r: Option<Option<string>>)
    ensures r.None? <==> u.privacy.Some? && |u.privacy.value| > 1
    ensures u.privacy.None? ==> r == Some(MatchProfilePhoto(u))
  {
    var truth := if u.privacy.Some? then ArrayTruth(u.privacy.value) else Some(false);
    match truth
    case None => None
    case Some(b) =>
      var vec := if b then u.privacy.value else seq(NUM_PRIVACY, _ => 1);
      Some(if vec[0] != 0 && HasPhoto(u) then u.photo else None)
  }

  /** `get_profile_photo` as evidently intended (the stored vector read as
      a list, as the profile serializer does): the photo, unless flag 0
      hides it or there is none. */
  function MatchProfilePhoto(u: User): (r: Option<string>)
    ensures r.Some? <==> PadPrivacy(u.privacy)[0] != 0 && HasPhoto(u)
    ensures r.Some? ==> r == u.photo
  {
    var vec := if u.privacy.Some? && u.privacy.value != [] then u.privacy.value else seq(NUM_PRIVACY, _ => 1);
    if vec[0] != 0 && HasPhoto(u) then u.photo else None
  }

  /** `DialogSerializer.get_partner`: none for a group chat, otherwise the
      other participant with the smallest primary key, if any. */
  function Partner(t: Tables, d: nat, me: UserId): (r: Option<UserId>)
    requires d < |t.dialogs|
    ensures IsGroupChat(t.dialogs[d]) ==> r.None?
    ensures r.Some? ==> r.value in t.dialogs[d].users && r.value != me && r.value < |t.users|
  {
    if IsGroupChat(t.dialogs[d]) then None else FirstOther(t, d, me)
  }

  /** `DialogSerializer(dialog).data` raises: the partner it renders with
      `ShortUserSerializer`, which reads `profile_photo.url` unguarded, has
      no photo. */
  predicate PartnerPhotoMissing(t: Tables, d: nat, me: UserId)
    requires d < |t.dialogs|
  {
    var p := Partner(t, d, me);
    p.Some? && !HasPhoto(t.users[p.value])
  }

  /** In a direct dialog of `me` and one other user, the partner is that user. */
  lemma PartnerOfPair(t: Tables, d: nat, me: UserId, other: UserId)
    requires d < |t.dialogs| && !IsGroupChat(t.dialogs[d])
    requires t.dialogs[d].users == {me, other} && other != me && other < |t.users|
    ensures Partner(t, d, me) == Some(other)
  {
    var r := FirstOther(t, d, me);
    assert r.Some? by {
      assert other in t.dialogs[d].users;
    }
  }

  /** `CustomGroupSerializer.get_chat_id`: the group's chat, created on first
      use with the group's active members; the reply is its primary key. */
  function GetChatIdSpec(t: Tables, g: nat): (Tables, nat) {
    match FindGroupChat(t.dialogs, g)
    case Some(c) => (t, Pk(c))
    case None => (t.(dialogs := t.dialogs + [NewGroupChat(g, ActiveMemberIds(t.members, g))]), Pk(|t.dialogs|))
  }

  method GetChatId(db: Store, g: nat) returns (id: nat)
    modifies db
    ensures (db.State(), id) == GetChatIdSpec(old(db.State()), g)
  {
    var found := FindGroupChat(db.dialogs, g);
    if found.Some? {
      return Pk(found.value);
    }
    var chat := |db.dialogs|;
    db.dialogs := db.dialogs + [NewGroupChat(g, ActiveMemberIds(db.members, g))];
    id := Pk(chat);
  }

  /** The reply names a chat of group `g`; a chat is created only when
      the group had none, with the group's active members as its users. */
  lemma GetChatIdFacts(t: Tables, g: nat)
    ensures var c := GetChatIdSpec(t, g);
      && 1 <= c.1 <= |c.0.dialogs| && c.0.dialogs[c.1 - 1].group == Some(g)
      && (FindGroupChat(t.dialogs, g).Some? ==> c.0 == t)
      && (FindGroupChat(t.dialogs, g).None? ==>
            c.0 == t.(dialogs := t.dialogs + [NewGroupChat(g, ActiveMemberIds(t.members, g))]))
  {
  }

  /** A second call returns the same id and changes nothing. */
  lemma GetChatIdStable(t: Tables, g: nat)
    ensures var c := GetChatIdSpec(t, g);
      GetChatIdSpec(c.0, g) == c
  {
    if FindGroupChat(t.dialogs, g).None? {
      var ds := t.dialogs + [NewGroupChat(g, ActiveMemberIds(t.members, g))];
      assert FindGroupChat(ds, g) == Some(|t.dialogs|) by {
        assert ds[|t.dialogs|].group == Some(g);
      }
    }
  }

  /** Creating a group's chat keeps the tables valid. */
  lemma GetChatIdKeepsValid(t: Tables, g: nat)
    requires ValidTables(t) && g < |t.groups|
    ensures ValidTables(GetChatIdSpec(t, g).0)
  {
    var t' := GetChatIdSpec(t, g).0;
    if FindGroupChat(t.dialogs, g).None? {
      var ds := t'.dialogs;
      var n := |t.dialogs|;
      forall i, u | 0 <= i < |ds| && u in ds[i].users ensures u < |t.users| {
        if i == n {
          assert IsActiveMember(t.members, g, u);
        }
      }
      forall i, j, a, b | 0 <= i < j < |ds| && a in ds[i].users && b in ds[i].users && a != b && !IsGroupChat(ds[i])
        ensures !DirectWith(ds[j], a, b)
      {
        if j == n {
          assert IsGroupChat(ds[j]);
        }
      }
    }
  }

  // ---------------------------------------------------------------- profile input

  const DATE_OF_BIRTH: string := "date_of_birth"
  const INTERESTS_RATINGS: string := "interests_ratings"
  const PRIVACY_VECTOR: string := "privacy_settings_vector"

  /** A request body: a multipart/urlencoded form (every key maps to its list
      of values) or a decoded JSON object. */
  datatype Payload = Form(lists: map<string, seq<Json>>) | Body(fields: map<string, Json>)

  /** Replaces a string value of `key` by its JSON decoding; an undecodable
      string is left as it is. `parse` stands for `json.loads`. */
  function ParseField(d: map<string, Json>, key: string, parse: string -> Option<Json>): (r: map<string, Json>)
    ensures r.Keys == d.Keys
    ensures forall k :: k in d && k != key ==> r[k] == d[k]
  {
    if key in d && d[key].JStr? && parse(d[key].s).Some? then d[key := parse(d[key].s).value] else d
  }

  /** `ProfileSerializer.to_internal_value` before field validation: an
      empty date of birth becomes null, a form's one-element lists are
      unwrapped, and JSON text in the ratings and privacy fields is decoded. */
  function NormalizeInput(p: Payload, parse: string -> Option<Json>): map<string, Json> {
    var flat := match p
      case Form(lists) =>
        var ls := if DATE_OF_BIRTH in lists && |lists[DATE_OF_BIRTH]| > 0
                     && lists[DATE_OF_BIRTH][|lists[DATE_OF_BIRTH]| - 1] == JStr("")
                  then lists[DATE_OF_BIRTH := [JNull]] else lists;
        map k | k in ls :: if |ls[k]| == 1 then ls[k][0] else JArr(ls[k])
      case Body(fields) =>
        if Get(fields, DATE_OF_BIRTH) == JStr("") then fields[DATE_OF_BIRTH := JNull] else fields;
    ParseField(ParseField(flat, INTERESTS_RATINGS, parse), PRIVACY_VECTOR, parse)
  }

  /** The value sent under `key` once a form's lists are flattened. */
  function FormValue(p: Payload, key: string): Json
    requires p.Body? ==> key in p.fields
    requires p.Form? ==> key in p.lists
  {
    if p.Body? then p.fields[key]
    else if |p.lists[key]| == 1 then p.lists[key][0] else JArr(p.lists[key])
  }

  /** The keys are those sent; an empty date of birth reads as null; a
      field other than the three special ones keeps its value (a form's
      single value unwrapped, several values as a list). */
  lemma NormalizeInputFacts(p: Payload, parse: string -> Option<Json>)
    ensures p.Body? ==> NormalizeInput(p, parse).Keys == p.fields.Keys
    ensures p.Form? ==> NormalizeInput(p, parse).Keys == p.lists.Keys
    ensures p.Body? && Get(p.fields, DATE_OF_BIRTH) == JStr("") ==> NormalizeInput(p, parse)[DATE_OF_BIRTH] == JNull
    ensures p.Form? && DATE_OF_BIRTH in p.lists && p.lists[DATE_OF_BIRTH] == [JStr("")] ==>
      NormalizeInput(p, parse)[DATE_OF_BIRTH] == JNull
    ensures forall k :: k in NormalizeInput(p, parse) && k != DATE_OF_BIRTH && k != INTERESTS_RATINGS && k != PRIVACY_VECTOR ==>
      NormalizeInput(p, parse)[k] == FormValue(p, k)
  {
  }

  /** A JSON string that decodes is replaced by its decoding; one that does
      not is kept as text. */
  lemma NormalizeParsesJsonText(fields: map<string, Json>, parse: string -> Option<Json>, text: string)
    requires INTERESTS_RATINGS in fields && fields[INTERESTS_RATINGS] == JStr(text)
    ensures parse(text).Some? ==> NormalizeInput(Body(fields), parse)[INTERESTS_RATINGS] == parse(text).value
    ensures parse(text).None? ==> NormalizeInput(Body(fields), parse)[INTERESTS_RATINGS] == JStr(text)
  {
  }

  // ---------------------------------------------------------------- profile update

  const CITY_ERROR: string := "Не удалось распознать город"

  /** The fields of a profile edit that passed their field checks, other
      than the city and the ratings; `None` means "not sent", and a photo of
      `Some(None)` is a sent null, which the nullable image field lets
      through. `columns` holds the plain columns
      (phone_number, date_of_birth, bio, tg_link, vk_link, is_can_write,
      is_offline) that were sent. */
  datatype ProfileChanges = ProfileChanges(
    firstName: Option<string>,
    lastName: Option<string>,
    privacy: Option<Option<seq<int>>>,
    photo: Option<Option<string>>,
    columns: map<string, Json>)

  datatype UpdateOutcome =
    | Updated
    | PhotoNullError        // 500: `validate_profile_photo(None)` reads `None.name`
    | CityNotRecognized     // 400 {'city': CITY_ERROR}
    | VectorDimensionError  // the privacy vector column holds exactly 9 values
    | UnknownInterest       // a rating names an interest that does not exist
    | RecalcFailed          // recalc_interest_vector raised

  /** The `setattr` loop: every sent field overwrites its column. */
  function ApplyChanges(u: User, ch: ProfileChanges): (r: User)
    ensures r.username == u.username && r.interestVector == u.interestVector
    ensures r.cityName == u.cityName && r.location == u.location
    ensures r.firstName == (if ch.firstName.Some? then ch.firstName.value else u.firstName)
    ensures r.lastName == (if ch.lastName.Some? then ch.lastName.value else u.lastName)
    ensures r.privacy == (if ch.privacy.Some? then ch.privacy.value else u.privacy)
    ensures r.photo == (if ch.photo.Some? then ch.photo.value else u.photo)
    ensures r.profile.Keys == u.profile.Keys + ch.columns.Keys
    ensures forall k :: k in r.profile ==> r.profile[k] == if k in ch.columns then ch.columns[k] else u.profile[k]
  {
    u.(firstName := if ch.firstName.Some? then ch.firstName.value else u.firstName,
       lastName := if ch.lastName.Some? then ch.lastName.value else u.lastName,
       privacy := if ch.privacy.Some? then ch.privacy.value else u.privacy,
       photo := if ch.photo.Some? then ch.photo.value else u.photo,
       profile := u.profile + ch.columns)
  }

  /** The rating rows sent are in 1..5: the rating field's validators run
      before `update` does. */
  predicate RatingsInRange(rs: seq<(int, int)>) {
    forall k :: 0 <= k < |rs| ==> MIN_RATING <= rs[k].1 <= MAX_RATING
  }

  /** The `update_or_create` loop over the sent ratings, in order; it stops at
      the first interest that does not exist, keeping the rows written so far. */
  function UpsertAll(ratings: seq<Rating>, interests: seq<Interest>, nUsers: nat, me: UserId, rs: seq<(int, int)>): (r: (seq<Rating>, bool))
    requires RatingsOk(ratings, nUsers, interests) && me < nUsers && RatingsInRange(rs)
    ensures RatingsOk(r.0, nUsers, interests)
    decreases |rs|
  {
    if rs == [] then (ratings, true)
    else if rs[0].0 < 0 || !InCatalogue(interests, rs[0].0) then (ratings, false)
    else
      UpsertKeepsRatingsOk(ratings, nUsers, interests, me, rs[0].0, rs[0].1);
      assert RatingsInRange(rs[1..]) by {
        assert forall k :: 1 <= k < |rs| ==> rs[1..][k - 1] == rs[k];
      }
      UpsertAll(UpsertRating(ratings, me, rs[0].0, rs[0].1), interests, nUsers, me, rs[1..])
  }

  /** The user row after the city step: a sent city is stored, and a
      non-empty one is geocoded; `None` when geocoding fails. `geocode`
      stands for `geocode_to_point`. */
  function Locate(u: User, city: Option<string>, geocode: string -> Option<Point>): (r: Option<User>)
    ensures r.None? <==> city.Some? && city.value != "" && geocode(city.value).None?
    ensures r.Some? ==> r.value.cityName == (if city.Some? then city else u.cityName)
    ensures r.Some? ==> r.value.location == (if city.Some? && city.value != "" then geocode(city.value) else u.location)
    ensures r.Some? ==> r.value == u.(cityName := r.value.cityName, location := r.value.location)
  {
    var u1 := if city.Some? then u.(cityName := city) else u;
    if city.Some? && city.value != "" then
      if geocode(city.value).None? then None else Some(u1.(location := geocode(city.value)))
    else Some(u1)
  }

  /** `ProfileSerializer.update` on validated data, without a transaction:
      a sent null photo already fails in `validate_profile_photo`, before
      any write; a failed geocode or a wrongly sized privacy vector saves
      nothing; the
      user row is saved before the ratings, and the ratings before the
      interest vector, so a later failure keeps the earlier writes. */
  function ProfileUpdateSpec(t: Tables, me: UserId, ch: ProfileChanges, city: Option<string>, rs: seq<(int, int)>,
                             geocode: string -> Option<Point>): (Tables, UpdateOutcome)
    requires ValidTables(t) && me < |t.users| && RatingsInRange(rs)
  {
    if ch.photo == Some(None) then (t, PhotoNullError)
    else
      var located := Locate(t.users[me], city, geocode);
      if located.None? then (t, CityNotRecognized)
      else
        var u := ApplyChanges(located.value, ch);
        if !ValidUserRow(u) then (t, VectorDimensionError)
        else SaveProfile(t, me, u, rs)
  }

  /** The writes of an accepted update: the user row `u`, then the ratings,
      then the rebuilt interest vector. */
  function SaveProfile(t: Tables, me: UserId, u: User, rs: seq<(int, int)>): (Tables, UpdateOutcome)
    requires RatingsOk(t.ratings, |t.users|, t.interests) && me < |t.users| && RatingsInRange(rs)
  {
    var (ratings, ok) := UpsertAll(t.ratings, t.interests, |t.users|, me, rs);
    var t2 := t.(users := t.users[me := u], ratings := ratings);
    if !ok then (t2, UnknownInterest)
    else
      var (t3, out) := Recalc(t2, me);
      (t3, if out == Saved then Updated else RecalcFailed)
  }

  /** The saved user row keeps the table valid. */
  lemma SaveUserKeepsValid(t: Tables, me: UserId, u: User)
    requires ValidTables(t) && me < |t.users| && ValidUserRow(u) && u.username == t.users[me].username
    ensures ValidTables(t.(users := t.users[me := u]))
  {
    var us := t.users[me := u];
    assert forall i, j :: 0 <= i < j < |us| ==> us[i].username == t.users[i].username && us[j].username == t.users[j].username;
  }

  method ProfileUpdate(db: Store, me: UserId, ch: ProfileChanges, city: Option<string>, rs: seq<(int, int)>,
                       geocode: string -> Option<Point>) returns (out: UpdateOutcome)
    requires db.Valid() && me < |db.users| && RatingsInRange(rs)
    modifies db
    ensures (db.State(), out) == ProfileUpdateSpec(old(db.State()), me, ch, city, rs, geocode)
    ensures db.Valid()
  {
    if ch.photo == Some(None) {
      return PhotoNullError;
    }
    var u := db.users[me];
    if city.Some? {
      u := u.(cityName := city);
    }
    if city.Some? && city.value != "" {
      var point := geocode(city.value);
      if point.None? {
        return CityNotRecognized;
      }
      u := u.(location := point);
    }
    u := ApplyChanges(u, ch);
    if !ValidUserRow(u) {
      return VectorDimensionError;
    }
    out := StoreProfile(db, me, u, rs);
  }

  /** `instance.save()`, the ratings loop and `recalc_interest_vector`. */
  method StoreProfile(db: Store, me: UserId, u: User, rs: seq<(int, int)>) returns (out: UpdateOutcome)
    requires db.Valid() && me < |db.users| && RatingsInRange(rs)
    requires ValidUserRow(u) && u.username == db.users[me].username
    modifies db
    ensures (db.State(), out) == SaveProfile(old(db.State()), me, u, rs)
    ensures db.Valid()
  {
    SaveUserKeepsValid(db.State(), me, u);
    db.users := db.users[me := u];
    var stored := SaveRatings(db, me, rs);
    if !stored {
      return UnknownInterest;
    }
    var recalc := RecalcInterestVector(db, me);
    out := if recalc == Saved then Updated else RecalcFailed;
  }

  /** The `update_or_create` loop itself. */
  method SaveRatings(db: Store, me: UserId, rs: seq<(int, int)>) returns (ok: bool)
    requires db.Valid() && me < |db.users| && RatingsInRange(rs)
    modifies db
    ensures (db.ratings, ok) == UpsertAll(old(db.ratings), old(db.interests), |old(db.users)|, me, rs)
    ensures db.State() == old(db.State()).(ratings := db.ratings)
    ensures db.Valid()
  {
    ghost var t1 := db.State();
    var i := 0;
    while i < |rs|
      invariant 0 <= i <= |rs| && db.Valid()
      invariant db.State() == t1.(ratings := db.ratings)
      invariant RatingsInRange(rs[i..])
      invariant UpsertAll(db.ratings, db.interests, |db.users|, me, rs[i..]) == UpsertAll(t1.ratings, t1.interests, |t1.users|, me, rs)
    {
      var (id, rating) := rs[i];
      if id < 0 || !InCatalogue(db.interests, id) {
        return false;
      }
      UpsertKeepsRatingsOk(db.ratings, |db.users|, db.interests, me, id, rating);
      assert rs[i..][1..] == rs[i + 1..];
      db.ratings := UpsertRating(db.ratings, me, id, rating);
      i := i + 1;
    }
    assert rs[i..] == [];
    return true;
  }

  /** The writes of an accepted update keep the tables valid. */
  lemma SaveProfileKeepsValid(t: Tables, me: UserId, u: User, rs: seq<(int, int)>)
    requires ValidTables(t) && me < |t.users| && RatingsInRange(rs)
    requires ValidUserRow(u) && u.username == t.users[me].username
    ensures ValidTables(SaveProfile(t, me, u, rs).0)
  {
    SaveUserKeepsValid(t, me, u);
    var t1 := t.(users := t.users[me := u]);
    var up := UpsertAll(t.ratings, t.interests, |t.users|, me, rs);
    var t2 := t1.(ratings := up.0);
    assert ValidTables(t2);
    if up.1 {
      RecalcKeepsValid(t2, me);
      assert SaveProfile(t, me, u, rs).0 == Recalc(t2, me).0;
    } else {
      assert SaveProfile(t, me, u, rs).0 == t2;
    }
  }

  /** Every outcome leaves the tables valid. */
  lemma ProfileUpdateKeepsValid(t: Tables, me: UserId, ch: ProfileChanges, city: Option<string>, rs: seq<(int, int)>,
                                geocode: string -> Option<Point>)
    requires ValidTables(t) && me < |t.users| && RatingsInRange(rs)
    ensures ValidTables(ProfileUpdateSpec(t, me, ch, city, rs, geocode).0)
  {
    var located := Locate(t.users[me], city, geocode);
    if ch.photo != Some(None) && located.Some? && ValidUserRow(ApplyChanges(located.value, ch)) {
      SaveProfileKeepsValid(t, me, ApplyChanges(located.value, ch), rs);
    }
  }

  /** A sent null photo, a city that cannot be geocoded, or a privacy vector
      of the wrong size refuses the update and leaves the tables untouched. */
  lemma ProfileUpdateRefusals(t: Tables, me: UserId, ch: ProfileChanges, city: Option<string>, rs: seq<(int, int)>,
                              geocode: string -> Option<Point>)
    requires ValidTables(t) && me < |t.users| && RatingsInRange(rs)
    ensures var (t', out) := ProfileUpdateSpec(t, me, ch, city, rs, geocode);
      && (out == PhotoNullError <==> ch.photo == Some(None))
      && (out == CityNotRecognized <==> ch.photo != Some(None) && city.Some? && city.value != "" && geocode(city.value).None?)
      && (out == VectorDimensionError <==>
            && ch.photo != Some(None)
            && Locate(t.users[me], city, geocode).Some? && !ValidUserRow(ApplyChanges(Locate(t.users[me], city, geocode).value, ch)))
      && (out == PhotoNullError || out == CityNotRecognized || out == VectorDimensionError ==> t' == t)
  {
  }

  /** Only the user's own row and own ratings change. */
  lemma SaveProfileFrame(t: Tables, me: UserId, u: User, rs: seq<(int, int)>)
    requires RatingsOk(t.ratings, |t.users|, t.interests) && me < |t.users| && RatingsInRange(rs)
    ensures var t' := SaveProfile(t, me, u, rs).0;
      && t' == t.(users := t'.users, ratings := t'.ratings)
      && |t'.users| == |t.users|
      && (forall v :: 0 <= v < |t.users| && v != me ==> t'.users[v] == t.users[v])
      && (forall k :: 0 <= k < |t'.ratings| && t'.ratings[k].user != me ==> t'.ratings[k] in t.ratings)
  {
    UpsertAllOthersKept(t.ratings, t.interests, |t.users|, me, rs);
  }

  /** Whatever the outcome, only the user's own row and own ratings change. */
  lemma ProfileUpdateFacts(t: Tables, me: UserId, ch: ProfileChanges, city: Option<string>, rs: seq<(int, int)>,
                           geocode: string -> Option<Point>)
    requires ValidTables(t) && me < |t.users| && RatingsInRange(rs)
    ensures var t' := ProfileUpdateSpec(t, me, ch, city, rs, geocode).0;
      && t' == t.(users := t'.users, ratings := t'.ratings)
      && |t'.users| == |t.users|
      && (forall v :: 0 <= v < |t.users| && v != me ==> t'.users[v] == t.users[v])
      && (forall k :: 0 <= k < |t'.ratings| && t'.ratings[k].user != me ==> t'.ratings[k] in t.ratings)
  {
    var located := Locate(t.users[me], city, geocode);
    if ch.photo != Some(None) && located.Some? && ValidUserRow(ApplyChanges(located.value, ch)) {
      SaveProfileFrame(t, me, ApplyChanges(located.value, ch), rs);
    }
  }

  /** A successful update is the rebuild of the interest vector over the
      saved user row and the saved ratings. */
  lemma UpdatedIsRecalc(t: Tables, me: UserId, ch: ProfileChanges, city: Option<string>, rs: seq<(int, int)>,
                        geocode: string -> Option<Point>)
    requires ValidTables(t) && me < |t.users| && RatingsInRange(rs)
    requires ProfileUpdateSpec(t, me, ch, city, rs, geocode).1 == Updated
    ensures Locate(t.users[me], city, geocode).Some?
    ensures var u := ApplyChanges(Locate(t.users[me], city, geocode).value, ch);
      var up := UpsertAll(t.ratings, t.interests, |t.users|, me, rs);
      var t2 := t.(users := t.users[me := u], ratings := up.0);
      && ValidTables(t2) && up.1
      && Recalc(t2, me).1 == Saved
      && ProfileUpdateSpec(t, me, ch, city, rs, geocode).0 == Recalc(t2, me).0
  {
    var u := ApplyChanges(Locate(t.users[me], city, geocode).value, ch);
    SaveUserKeepsValid(t, me, u);
    var t1 := t.(users := t.users[me := u]);
    var t2 := t1.(ratings := UpsertAll(t.ratings, t.interests, |t.users|, me, rs).0);
    assert ValidTables(t2);
  }

  /** A successful update stores the sent names, privacy vector, city and
      photo; a sent photo was not null. */
  lemma ProfileUpdatedRow(t: Tables, me: UserId, ch: ProfileChanges, city: Option<string>, rs: seq<(int, int)>,
                          geocode: string -> Option<Point>)
    requires ValidTables(t) && me < |t.users| && RatingsInRange(rs)
    requires ProfileUpdateSpec(t, me, ch, city, rs, geocode).1 == Updated
    ensures var u' := ProfileUpdateSpec(t, me, ch, city, rs, geocode).0.users[me];
      && (ch.firstName.Some? ==> u'.firstName == ch.firstName.value)
      && (ch.lastName.Some? ==> u'.lastName == ch.lastName.value)
      && (ch.privacy.Some? ==> u'.privacy == ch.privacy.value)
      && (city.Some? ==> u'.cityName == city)
      && (ch.photo.Some? ==> ch.photo.value.Some? && u'.photo == ch.photo.value)
  {
    UpdatedIsRecalc(t, me, ch, city, rs, geocode);
    var u := ApplyChanges(Locate(t.users[me], city, geocode).value, ch);
    var t2 := t.(users := t.users[me := u], ratings := UpsertAll(t.ratings, t.interests, |t.users|, me, rs).0);
    var u' := Recalc(t2, me).0.users[me];
    assert u' == u.(interestVector := u'.interestVector);
  }

  /** After a successful update a sent rating that is the last one for its
      interest is in the user's rebuilt interest vector. */
  lemma ProfileUpdatedRating(t: Tables, me: UserId, ch: ProfileChanges, city: Option<string>, rs: seq<(int, int)>,
                             geocode: string -> Option<Point>, k: nat)
    requires ValidTables(t) && me < |t.users| && RatingsInRange(rs)
    requires ProfileUpdateSpec(t, me, ch, city, rs, geocode).1 == Updated
    requires k < |rs| && forall j :: k < j < |rs| ==> rs[j].0 != rs[k].0
    ensures var u' := ProfileUpdateSpec(t, me, ch, city, rs, geocode).0.users[me];
      1 <= rs[k].0 <= NUM_INTERESTS && u'.interestVector.Some? && u'.interestVector.value[rs[k].0 - 1] == rs[k].1
  {
    UpdatedIsRecalc(t, me, ch, city, rs, geocode);
    var u := ApplyChanges(Locate(t.users[me], city, geocode).value, ch);
    var t2 := t.(users := t.users[me := u], ratings := UpsertAll(t.ratings, t.interests, |t.users|, me, rs).0);
    RecalcStoresRatings(t2, me);
    UpsertAllStores(t.ratings, t.interests, |t.users|, me, rs, k);
    var row := Rating(me, rs[k].0, rs[k].1);
    assert row in t2.ratings && row.user == me;
  }

  /** After a successful update every sent rating (the last one for its
      interest) is in the user's rebuilt interest vector. */
  lemma ProfileUpdatedRatings(t: Tables, me: UserId, ch: ProfileChanges, city: Option<string>, rs: seq<(int, int)>,
                              geocode: string -> Option<Point>)
    requires ValidTables(t) && me < |t.users| && RatingsInRange(rs)
    requires ProfileUpdateSpec(t, me, ch, city, rs, geocode).1 == Updated
    ensures var u' := ProfileUpdateSpec(t, me, ch, city, rs, geocode).0.users[me];
      forall k :: 0 <= k < |rs| && (forall j :: k < j < |rs| ==> rs[j].0 != rs[k].0) ==>
        1 <= rs[k].0 <= NUM_INTERESTS && u'.interestVector.Some? && u'.interestVector.value[rs[k].0 - 1] == rs[k].1
  {
    var users' := ProfileUpdateSpec(t, me, ch, city, rs, geocode).0.users;
    forall k | 0 <= k < |rs| && (forall j :: k < j < |rs| ==> rs[j].0 != rs[k].0)
      ensures 1 <= rs[k].0 <= NUM_INTERESTS && me < |users'|
        && users'[me].interestVector.Some? && users'[me].interestVector.value[rs[k].0 - 1] == rs[k].1
    {
      ProfileUpdatedRating(t, me, ch, city, rs, geocode, k);
    }
  }

  /** The ratings after the first one are in range too. */
  lemma RatingsInRangeTail(rs: seq<(int, int)>)
    requires rs != [] && RatingsInRange(rs)
    ensures RatingsInRange(rs[1..])
  {
    assert forall k :: 1 <= k < |rs| ==> rs[1..][k - 1] == rs[k];
  }

  /** One upsert keeps every row of another user. */
  lemma UpsertKeepsOthers(ratings: seq<Rating>, me: UserId, id: nat, r: int)
    requires RatingKeysUnique(ratings)
    ensures var next := UpsertRating(ratings, me, id, r);
      forall k :: 0 <= k < |next| && next[k].user != me ==> next[k] in ratings
  {
    var next := UpsertRating(ratings, me, id, r);
    forall k | 0 <= k < |next| && next[k].user != me ensures next[k] in ratings {
      if k < |ratings| {
        assert next[k] == ratings[k];
      }
    }
  }

  /** One upsert keeps every row for another interest. */
  lemma UpsertKeepsRow(ratings: seq<Rating>, me: UserId, id: nat, r: int, row: Rating)
    requires RatingKeysUnique(ratings) && row in ratings && row.interest != id
    ensures row in UpsertRating(ratings, me, id, r)
  {
    var i :| 0 <= i < |ratings| && ratings[i] == row;
    assert UpsertRating(ratings, me, id, r)[i] == row;
  }

  /** The upsert loop touches only `me`'s rows. */
  lemma {:induction false} UpsertAllOthersKept(ratings: seq<Rating>, interests: seq<Interest>, nUsers: nat, me: UserId, rs: seq<(int, int)>)
    requires RatingsOk(ratings, nUsers, interests) && me < nUsers && RatingsInRange(rs)
    ensures forall k :: 0 <= k < |UpsertAll(ratings, interests, nUsers, me, rs).0| && UpsertAll(ratings, interests, nUsers, me, rs).0[k].user != me ==>
      UpsertAll(ratings, interests, nUsers, me, rs).0[k] in ratings
    decreases |rs|
  {
    if rs != [] && rs[0].0 >= 0 && InCatalogue(interests, rs[0].0) {
      var next := UpsertRating(ratings, me, rs[0].0, rs[0].1);
      UpsertKeepsRatingsOk(ratings, nUsers, interests, me, rs[0].0, rs[0].1);
      RatingsInRangeTail(rs);
      UpsertAllOthersKept(next, interests, nUsers, me, rs[1..]);
      UpsertKeepsOthers(ratings, me, rs[0].0, rs[0].1);
    }
  }

  /** On success every sent rating whose interest is not sent again later
      is stored for `me`. */
  lemma {:induction false} UpsertAllStores(ratings: seq<Rating>, interests: seq<Interest>, nUsers: nat, me: UserId, rs: seq<(int, int)>, k: nat)
    requires RatingsOk(ratings, nUsers, interests) && me < nUsers && RatingsInRange(rs)
    requires UpsertAll(ratings, interests, nUsers, me, rs).1
    requires k < |rs| && forall j :: k < j < |rs| ==> rs[j].0 != rs[k].0
    ensures rs[k].0 >= 0 && Rating(me, rs[k].0, rs[k].1) in UpsertAll(ratings, interests, nUsers, me, rs).0
    decreases |rs|
  {
    var next := UpsertRating(ratings, me, rs[0].0, rs[0].1);
    UpsertKeepsRatingsOk(ratings, nUsers, interests, me, rs[0].0, rs[0].1);
    RatingsInRangeTail(rs);
    var rest := rs[1..];
    assert forall j :: 0 <= j < |rest| ==> rest[j] == rs[j + 1];
    if k == 0 {
      UpsertAllKeeps(next, interests, nUsers, me, rest, Rating(me, rs[0].0, rs[0].1));
    } else {
      UpsertAllStores(next, interests, nUsers, me, rest, k - 1);
    }
  }

  /** A row of `me` for an interest the loop does not send again survives it. */
  lemma {:induction false} UpsertAllKeeps(ratings: seq<Rating>, interests: seq<Interest>, nUsers: nat, me: UserId, rs: seq<(int, int)>, row: Rating)
    requires RatingsOk(ratings, nUsers, interests) && me < nUsers && RatingsInRange(rs)
    requires row in ratings && forall j :: 0 <= j < |rs| ==> rs[j].0 != row.interest
    ensures row in UpsertAll(ratings, interests, nUsers, me, rs).0
    decreases |rs|
  {
    if rs != [] && rs[0].0 >= 0 && InCatalogue(interests, rs[0].0) {
      var next := UpsertRating(ratings, me, rs[0].0, rs[0].1);
      UpsertKeepsRatingsOk(ratings, nUsers, interests, me, rs[0].0, rs[0].1);
      RatingsInRangeTail(rs);
      UpsertKeepsRow(ratings, me, rs[0].0, rs[0].1, row);
      var rest := rs[1..];
      assert forall j :: 0 <= j < |rest| ==> rest[j] == rs[j + 1];
      UpsertAllKeeps(next, interests, nUsers, me, rest, row);
    }
  }
}
