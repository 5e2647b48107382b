/** Automatic group formation: the graph of mutual likes, its maximal cliques
    cut into chunks of five to seven users, and one group (with its group chat
    and notifications) per chunk that is not a group yet. */
module Grouping {
  import opened Common
  import opened UserModels
  import opened GroupModels
  import opened DialogModels
  import opened Sorting
  import opened Db

  const MIN_SIZE: nat := 5
  const MAX_SIZE: nat := 7
  /** `CustomGroup.name` is a `varchar(255)`. */
  const NAME_MAX_LENGTH: nat := 255

  /** An undirected graph; every edge is stored in both orientations. */
  datatype Graph = Graph(nodes: set<UserId>, edges: set<(UserId, UserId)>)

  // ---------------------------------------------------------------- graph

  /** The active users among the rows of `users`. */
  function ActiveIds(users: seq<User>): (r: set<UserId>)
    ensures forall u: nat :: u in r <==> u < |users| && users[u].isActive
  {
    if users == [] then {}
    else ActiveIds(users[..|users| - 1]) + (if users[|users| - 1].isActive then {|users| - 1} else {})
  }

  /** The graph after the active users became nodes and the like rows `rows`
      (a prefix of `likes`) were visited: a row whose reverse is in `likes`
      adds the edge between its two users, and with it both users as nodes. */
  function GraphOf(users: seq<User>, rows: seq<Like>, likes: seq<Like>): Graph {
    if rows == [] then Graph(ActiveIds(users), {})
    else
      var g := GraphOf(users, rows[..|rows| - 1], likes);
      var l := rows[|rows| - 1];
      if Like(l.likedUser, l.user) in likes then
        Graph(g.nodes + {l.user, l.likedUser}, g.edges + {(l.user, l.likedUser), (l.likedUser, l.user)})
      else g
  }

  /** An edge stands for a visited row whose reverse exists; a node is an
      active user or an endpoint of an edge. */
  lemma {:induction false} GraphOfFacts(users: seq<User>, rows: seq<Like>, likes: seq<Like>)
    ensures var g := GraphOf(users, rows, likes);
      forall a: nat, b: nat :: (a, b) in g.edges <==>
        (Like(a, b) in rows && Like(b, a) in likes) || (Like(b, a) in rows && Like(a, b) in likes)
    ensures var g := GraphOf(users, rows, likes);
      forall u: nat :: u in g.nodes <==> (u < |users| && users[u].isActive) || exists v: nat :: (u, v) in g.edges
  {
    if rows != [] {
      GraphOfFacts(users, rows[..|rows| - 1], likes);
      assert forall x :: x in rows <==> x in rows[..|rows| - 1] || x == rows[|rows| - 1];
    }
  }

  /** The graph `build_graph` returns for the current tables. */
  function MutualGraph(t: Tables): Graph {
    GraphOf(t.users, t.likes, t.likes)
  }

  /** u–v is an edge iff each likes the other; a node is an active user or
      an endpoint of an edge, active or not. */
  lemma MutualGraphEdges(t: Tables)
    ensures forall a: nat, b: nat :: (a, b) in MutualGraph(t).edges <==> Like(a, b) in t.likes && Like(b, a) in t.likes
    ensures forall a: nat, b: nat :: (a, b) in MutualGraph(t).edges ==> (b, a) in MutualGraph(t).edges
    ensures forall u: nat :: u in MutualGraph(t).nodes <==>
      (u < |t.users| && t.users[u].isActive) || exists v: nat :: Like(u, v) in t.likes && Like(v, u) in t.likes
  {
    GraphOfFacts(t.users, t.likes, t.likes);
  }

  /** Visiting one more like row. */
  lemma GraphOfStep(users: seq<User>, rows: seq<Like>, l: Like, likes: seq<Like>)
    ensures GraphOf(users, rows + [l], likes) ==
      var g := GraphOf(users, rows, likes);
      if Like(l.likedUser, l.user) in likes then
        Graph(g.nodes + {l.user, l.likedUser}, g.edges + {(l.user, l.likedUser), (l.likedUser, l.user)})
      else g
  {
    assert (rows + [l])[..|rows|] == rows;
  }

  /** `build_graph`: every active user becomes a node, then every like row
      whose reverse exists adds an edge. */
  method BuildGraph(db: Store) returns (g: Graph)
    ensures g == MutualGraph(db.State())
  {
    var users := db.users;
    var likes := db.likes;
    var nodes: set<UserId> := {};
    var i := 0;
    while i < |users|
      invariant 0 <= i <= |users|
      invariant nodes == ActiveIds(users[..i])
    {
      assert users[..i + 1][..i] == users[..i];
      if users[i].isActive {
        nodes := nodes + {i};
      }
      i := i + 1;
    }
    assert users[..|users|] == users;
    var edges: set<(UserId, UserId)> := {};
    var j := 0;
    while j < |likes|
      invariant 0 <= j <= |likes|
      invariant Graph(nodes, edges) == GraphOf(users, likes[..j], likes)
    {
      assert likes[..j + 1] == likes[..j] + [likes[j]];
      GraphOfStep(users, likes[..j], likes[j], likes);
      var like := likes[j];
      if Like(like.likedUser, like.user) in likes {
        nodes := nodes + {like.user, like.likedUser};
        edges := edges + {(like.user, like.likedUser), (like.likedUser, like.user)};
      }
      j := j + 1;
    }
    assert likes[..|likes|] == likes;
    g := Graph(nodes, edges);
  }

  // ---------------------------------------------------------------- split

  function Min(a: int, b: int): int {
    if a <= b then a else b
  }

  /** The `k`-th slice `clique[7k : 7k + 7]`. */
  function Chunk(clique: seq<UserId>, k: nat): seq<UserId>
    requires k * MAX_SIZE <= |clique|
  {
    clique[k * MAX_SIZE .. Min(k * MAX_SIZE + MAX_SIZE, |clique|)]
  }

  /** What `split_clique` returns: a clique of at most seven users whole,
      otherwise its consecutive slices of seven, the last slice kept only when
      it has at least five users. */
  function Split(clique: seq<UserId>): (chunks: seq<seq<UserId>>)
    ensures |clique| <= MAX_SIZE ==> chunks == [clique]
    ensures |clique| > MAX_SIZE ==> |chunks| >= 1
    ensures |clique| > MAX_SIZE ==> forall k :: 0 <= k < |chunks| ==>
      MIN_SIZE <= |chunks[k]| <= MAX_SIZE
      && k * MAX_SIZE + |chunks[k]| <= |clique|
      && chunks[k] == clique[k * MAX_SIZE .. k * MAX_SIZE + |chunks[k]|]
    ensures |clique| > MAX_SIZE ==> forall k :: 0 <= k < |chunks| - 1 ==> |chunks[k]| == MAX_SIZE
    ensures |clique| > MAX_SIZE ==>
      |clique| - (|chunks| - 1) * MAX_SIZE - |chunks[|chunks| - 1]| < MIN_SIZE
  {
    var n := |clique|;
    if n <= MAX_SIZE then [clique]
    else
      var count := n / MAX_SIZE + (if n % MAX_SIZE >= MIN_SIZE then 1 else 0);
      seq(count, k requires 0 <= k < count => Chunk(clique, k))
  }

  /** `split_clique`, slice by slice. */
  method SplitClique(clique: seq<UserId>) returns (chunks: seq<seq<UserId>>)
    ensures chunks == Split(clique)
  {
    var n := |clique|;
    if n <= MAX_SIZE {
      return [clique];
    }
    chunks := [];
    var m := 0;
    while m * MAX_SIZE < n
      invariant m * MAX_SIZE < n + MAX_SIZE
      invariant m * MAX_SIZE <= n ==> chunks == seq(m, k requires 0 <= k < m => Chunk(clique, k))
      invariant m * MAX_SIZE > n ==> chunks == Split(clique)
    {
      var i := m * MAX_SIZE;
      var chunk := clique[i .. Min(i + MAX_SIZE, n)];
      assert chunk == Chunk(clique, m);
      if |chunk| >= MIN_SIZE {
        chunks := chunks + [chunk];
      }
      if i + MAX_SIZE > n {
        assert n / MAX_SIZE == m && n % MAX_SIZE == n - i;
      }
      m := m + 1;
    }
    if m * MAX_SIZE == n {
      assert n / MAX_SIZE == m && n % MAX_SIZE == 0;
    }
  }

  /** Nine users give one chunk of the first seven. */
  lemma SplitNine(clique: seq<UserId>)
    requires |clique| == 9
    ensures Split(clique) == [clique[..7]]
  {
    assert Split(clique)[0] == clique[..7];
  }

  /** Twelve users give a chunk of seven and a chunk of five. */
  lemma SplitTwelve(clique: seq<UserId>)
    requires |clique| == 12
    ensures Split(clique) == [clique[..7], clique[7..]]
  {
    assert Split(clique)[0] == clique[..7];
    assert Split(clique)[1] == clique[7..];
  }

  // ---------------------------------------------------------------- group_exists

  /** `x` inserted before the first element of `s` that is not smaller. */
  function InsertNat(x: nat, s: seq<nat>): seq<nat> {
    if s == [] || x <= s[0] then [x] + s else [s[0]] + InsertNat(x, s[1..])
  }

  /** `sorted(user_ids)`. */
  function SortNats(ids: seq<nat>): seq<nat> {
    if ids == [] then [] else InsertNat(ids[0], SortNats(ids[1..]))
  }

  predicate NonDecreasing(s: seq<nat>) {
    forall p, q :: 0 <= p < q < |s| ==> s[p] <= s[q]
  }

  /** Insertion adds exactly `x`. */
  lemma {:induction false} InsertNatElems(x: nat, s: seq<nat>)
    ensures |InsertNat(x, s)| == |s| + 1
    ensures forall y :: y in InsertNat(x, s) <==> y == x || y in s
  {
    if s != [] && x > s[0] {
      InsertNatElems(x, s[1..]);
      assert forall y :: y in s <==> y == s[0] || y in s[1..];
    }
  }

  /** Insertion keeps a sorted sequence sorted. */
  lemma {:induction false} InsertNatSorted(x: nat, s: seq<nat>)
    requires NonDecreasing(s)
    ensures NonDecreasing(InsertNat(x, s))
  {
    var r := InsertNat(x, s);
    if s != [] && x > s[0] {
      var rest := InsertNat(x, s[1..]);
      assert NonDecreasing(s[1..]);
      InsertNatSorted(x, s[1..]);
      InsertNatElems(x, s[1..]);
      assert r == [s[0]] + rest;
      forall p, q | 0 <= p < q < |r| ensures r[p] <= r[q] {
        assert r[q] == rest[q - 1] && rest[q - 1] in rest;
        if p > 0 {
          assert r[p] == rest[p - 1];
        } else if rest[q - 1] != x {
          var k :| 0 <= k < |s[1..]| && s[1..][k] == rest[q - 1];
          assert s[k + 1] == rest[q - 1];
        }
      }
    } else {
      forall p, q | 0 <= p < q < |r| ensures r[p] <= r[q] {
        assert r[q] == s[q - 1];
        if p > 0 {
          assert r[p] == s[p - 1];
        }
      }
    }
  }

  /** Inserting a new value keeps a strictly increasing sequence strictly
      increasing. */
  lemma {:induction false} InsertNatIncreasing(x: nat, s: seq<nat>)
    requires Increasing(s) && x !in s
    ensures Increasing(InsertNat(x, s))
  {
    if s != [] && x > s[0] {
      var rest := InsertNat(x, s[1..]);
      assert Increasing(s[1..]);
      assert x !in s[1..];
      InsertNatIncreasing(x, s[1..]);
      InsertNatElems(x, s[1..]);
      assert forall y :: y in rest ==> s[0] < y by {
        forall y | y in rest ensures s[0] < y {
          if y != x {
            var k :| 0 <= k < |s[1..]| && s[1..][k] == y;
            assert s[k + 1] == y;
          }
        }
      }
      ConsIncreasing(s[0], rest);
    } else {
      assert forall y :: y in s ==> x < y by {
        forall y | y in s ensures x < y {
          var k :| 0 <= k < |s| && s[k] == y;
          assert s[0] <= s[k];
        }
      }
      ConsIncreasing(x, s);
    }
  }

  /** `sorted` keeps the ids, puts them in ascending order, and lists
      distinct ids in strictly ascending order. */
  lemma {:induction false} SortNatsFacts(ids: seq<nat>)
    ensures var r := SortNats(ids);
      |r| == |ids| && (forall x :: x in r <==> x in ids)
      && NonDecreasing(r)
      && (Distinct(ids) ==> Increasing(r))
  {
    if ids != [] {
      var rest := SortNats(ids[1..]);
      SortNatsFacts(ids[1..]);
      InsertNatElems(ids[0], rest);
      InsertNatSorted(ids[0], rest);
      assert forall x :: x in ids <==> x == ids[0] || x in ids[1..];
      if Distinct(ids) {
        assert Distinct(ids[1..]);
        assert ids[0] !in ids[1..] by {
          forall k | 0 <= k < |ids[1..]| ensures ids[1..][k] != ids[0] {
            assert ids[1..][k] == ids[k + 1];
          }
        }
        InsertNatIncreasing(ids[0], rest);
      }
    }
  }

  /** The users of group `g`'s membership rows, as a set. */
  function MemberIds(ms: seq<GroupMember>, g: nat): set<UserId> {
    if ms == [] then {}
    else
      var last := ms[|ms| - 1];
      MemberIds(ms[..|ms| - 1], g) + (if last.group == g then {last.user} else {})
  }

  /** A user is a member of `g` iff some membership row says so. */
  lemma {:induction false} MemberIdsFacts(ms: seq<GroupMember>, g: nat)
    ensures forall u :: u in MemberIds(ms, g) <==> exists k :: 0 <= k < |ms| && ms[k].group == g && ms[k].user == u
  {
    if ms != [] {
      var init := ms[..|ms| - 1];
      MemberIdsFacts(init, g);
      assert forall k :: 0 <= k < |init| ==> init[k] == ms[k];
    }
  }

  /** `Count('members')`: the number of membership rows of group `g`. */
  function MemberCount(ms: seq<GroupMember>, g: nat): nat {
    if ms == [] then 0
    else MemberCount(ms[..|ms| - 1], g) + (if ms[|ms| - 1].group == g then 1 else 0)
  }

  /** `group_exists(user_ids)`: some group has exactly `len(user_ids)`
      membership rows, and its distinct member ids in ascending order equal
      `sorted(user_ids)`. */
  predicate GroupExists(t: Tables, ids: seq<UserId>) {
    exists g :: 0 <= g < |t.groups| && MemberCount(t.members, g) == |ids|
      && Ascending(MemberIds(t.members, g), |t.users|) == SortNats(ids)
  }

  /** Some group's members are exactly the users `ids`. */
  predicate HasGroupOf(t: Tables, ids: seq<UserId>) {
    exists g :: 0 <= g < |t.groups| && MemberIds(t.members, g) == Elems(ids)
  }

  /** Every chunk of `cs` is the member set of some group. */
  predicate AllGrouped(t: Tables, cs: seq<seq<UserId>>) {
    forall k :: 0 <= k < |cs| ==> HasGroupOf(t, cs[k])
  }

  lemma AllGroupedSnoc(t: Tables, cs: seq<seq<UserId>>, c: seq<UserId>)
    ensures AllGrouped(t, cs + [c]) <==> AllGrouped(t, cs) && HasGroupOf(t, c)
  {
    var all := cs + [c];
    assert all[|cs|] == c;
    assert forall k :: 0 <= k < |cs| ==> all[k] == cs[k];
  }

  lemma AllGroupedLast(t: Tables, cs: seq<seq<UserId>>)
    requires cs != []
    ensures AllGrouped(t, cs) <==> AllGrouped(t, cs[..|cs| - 1]) && HasGroupOf(t, cs[|cs| - 1])
  {
    var init := cs[..|cs| - 1];
    assert forall k :: 0 <= k < |init| ==> init[k] == cs[k];
  }

  /** With (user, group) unique, a group has one row per member. */
  lemma {:induction false} MemberCountIsCard(ms: seq<GroupMember>, g: nat)
    requires forall i, j :: 0 <= i < j < |ms| ==> (ms[i].user, ms[i].group) != (ms[j].user, ms[j].group)
    ensures MemberCount(ms, g) == |MemberIds(ms, g)|
  {
    if ms != [] {
      var init := ms[..|ms| - 1];
      var last := ms[|ms| - 1];
      assert forall i, j :: 0 <= i < j < |init| ==> (init[i].user, init[i].group) != (init[j].user, init[j].group) by {
        forall i, j | 0 <= i < j < |init| ensures (init[i].user, init[i].group) != (init[j].user, init[j].group) {
          assert init[i] == ms[i] && init[j] == ms[j];
        }
      }
      MemberCountIsCard(init, g);
      if last.group == g {
        MemberIdsFacts(init, g);
        assert last.user !in MemberIds(init, g) by {
          forall k | 0 <= k < |init| && init[k].group == g ensures init[k].user != last.user {
            assert init[k] == ms[k];
            assert (ms[k].user, ms[k].group) != (ms[|ms| - 1].user, ms[|ms| - 1].group);
          }
        }
      }
    }
  }

  /** A group that passes `group_exists`'s test has exactly the users `ids`. */
  lemma ExistingGroupMembers(t: Tables, ids: seq<UserId>, g: nat)
    requires MembersOk(t.members, |t.users|, |t.groups|)
    requires Ascending(MemberIds(t.members, g), |t.users|) == SortNats(ids)
    ensures MemberIds(t.members, g) == Elems(ids)
  {
    var m := MemberIds(t.members, g);
    var asc := Ascending(m, |t.users|);
    AscendingComplete(m, |t.users|);
    AscendingFacts(m, |t.users|);
    SortNatsFacts(ids);
    MemberIdsFacts(t.members, g);
    forall u ensures u in m <==> u in Elems(ids) {
      if u in m {
        var k :| 0 <= k < |t.members| && t.members[k].group == g && t.members[k].user == u;
        assert u < |t.users|;
        assert u in asc;
      }
      if u in Elems(ids) {
        assert u in SortNats(ids);
      }
    }
  }

  /** A group whose members are exactly the distinct users `ids` passes
      `group_exists`'s test. */
  lemma GroupOfPasses(t: Tables, ids: seq<UserId>, g: nat)
    requires MembersOk(t.members, |t.users|, |t.groups|)
    requires Distinct(ids)
    requires MemberIds(t.members, g) == Elems(ids)
    ensures MemberCount(t.members, g) == |ids|
    ensures Ascending(MemberIds(t.members, g), |t.users|) == SortNats(ids)
  {
    MemberCountIsCard(t.members, g);
    DistinctCard(ids);
    var m := MemberIds(t.members, g);
    var asc := Ascending(m, |t.users|);
    AscendingComplete(m, |t.users|);
    AscendingFacts(m, |t.users|);
    var sorted := SortNats(ids);
    SortNatsFacts(ids);
    MemberIdsFacts(t.members, g);
    forall x ensures x in asc <==> x in sorted {
      if x in sorted {
        assert x in Elems(ids);
        var k :| 0 <= k < |t.members| && t.members[k].group == g && t.members[k].user == x;
      }
    }
    assert Increasing(asc);
    assert Increasing(sorted);
    IncreasingUnique(asc, sorted);
  }

  /** For distinct ids, `group_exists` says exactly that some group's member
      set is the set of `ids`. */
  lemma GroupExistsIff(t: Tables, ids: seq<UserId>)
    requires MembersOk(t.members, |t.users|, |t.groups|)
    requires Distinct(ids)
    ensures GroupExists(t, ids) ==> HasGroupOf(t, ids)
    ensures HasGroupOf(t, ids) ==> GroupExists(t, ids)
  {
    if GroupExists(t, ids) {
      var g :| 0 <= g < |t.groups| && MemberCount(t.members, g) == |ids|
        && Ascending(MemberIds(t.members, g), |t.users|) == SortNats(ids);
      ExistingGroupMembers(t, ids, g);
    }
    if HasGroupOf(t, ids) {
      var g :| 0 <= g < |t.groups| && MemberIds(t.members, g) == Elems(ids);
      GroupOfPasses(t, ids, g);
    }
  }

  // ---------------------------------------------------------------- create_group

  const AUTO_DESCRIPTION: string := "Сформирована автоматически по интересам"

  /** `u.first_name or u.username`. */
  function ShortName(u: User): (r: string)
    ensures r == u.firstName || r == u.username
    ensures r == "" ==> u.firstName == "" && u.username == ""
  {
    if u.firstName != "" then u.firstName else u.username
  }

  predicate IdsIn(ids: seq<UserId>, nUsers: nat) {
    forall k :: 0 <= k < |ids| ==> ids[k] < nUsers
  }

  /** `'Группа ' + ', '.join(first_name or username of users[:3]) + '…'`,
      the users taken in primary-key order. */
  function GroupName(users: seq<User>, ids: seq<UserId>): string
    requires IdsIn(ids, |users|)
  {
    SortNatsFacts(ids);
    var first := Prefix(SortNats(ids), 3);
    assert IdsIn(first, |users|) by {
      assert forall k :: 0 <= k < |first| ==> first[k] in ids;
    }
    "Группа " + Join(", ", ShortNames(users, first)) + "…"
  }

  /** `first_name or username` of each of the users `ids`, in order. */
  function ShortNames(users: seq<User>, ids: seq<UserId>): (r: seq<string>)
    requires IdsIn(ids, |users|)
    ensures |r| == |ids| && forall k :: 0 <= k < |ids| ==> r[k] == ShortName(users[ids[k]])
  {
    if ids == [] then [] else [ShortName(users[ids[0]])] + ShortNames(users, ids[1..])
  }

  /** The name lists the short names of the (at most) three chunk users
      with the smallest ids, in id order, after `Группа ` and before `…`. */
  lemma GroupNameParts(users: seq<User>, ids: seq<UserId>)
    requires IdsIn(ids, |users|) && Distinct(ids)
    ensures var first := Prefix(SortNats(ids), 3);
      && |first| == (if |ids| < 3 then |ids| else 3)
      && Increasing(first)
      && (forall k :: 0 <= k < |first| ==> first[k] in ids)
      && (forall x, k :: x in ids && x !in first && 0 <= k < |first| ==> first[k] < x)
      && IdsIn(first, |users|)
      && GroupName(users, ids) == "Группа " + Join(", ", ShortNames(users, first)) + "…"
  {
    SortNatsFacts(ids);
    var sorted := SortNats(ids);
    var first := Prefix(sorted, 3);
    forall x, k | x in ids && x !in first && 0 <= k < |first| ensures first[k] < x {
      var j :| 0 <= j < |sorted| && sorted[j] == x;
      assert j >= |first|;
    }
  }

  function NewGroupText(name: string): string {
    "Вы добавлены в новую группу «" + name + "»"
  }

  /** The membership rows `bulk_create` inserts for group `g`. */
  function MembershipRows(users: seq<UserId>, g: nat): seq<GroupMember>
  {
    seq(|users|, k requires 0 <= k < |users| => NewMember(users[k], g))
  }

  /** One notification per chunk user, in chunk order. */
  function GroupNotices(ids: seq<UserId>, chat: nat, text: string): seq<Notification>
  {
    seq(|ids|, k requires 0 <= k < |ids| => NewNotification(ids[k], chat, text))
  }

  /** One `notify` event per chunk user, on the user's channel. */
  function GroupPushes(ids: seq<UserId>, chat: nat, text: string): seq<Push>
  {
    seq(|ids|, k requires 0 <= k < |ids| => Push(UserChannel(ids[k]), Notify(chat, text)))
  }

  /** The state of a `build_groups` run: still going, or rolled back by a
      failed insert, with the events that were already sent. */
  datatype Run = Running(t: Tables) | Aborted(pushes: seq<Push>)

  /** Inserting the group `name` for the users `ids`: a name that is taken
      (unique) or longer than 255 characters fails before anything is sent;
      otherwise the group, its memberships, its chat, then for each user a
      notification and a push. */
  function AddGroup(t: Tables, ids: seq<UserId>, name: string): Run {
    if NameTaken(t.groups, name) || |name| > NAME_MAX_LENGTH then Aborted(t.pushes)
    else
      var g := |t.groups|;
      var chat := |t.dialogs|;
      var text := NewGroupText(name);
      Running(t.(groups := t.groups + [Group(name, AUTO_DESCRIPTION)],
                 members := t.members + MembershipRows(SortNats(ids), g),
                 dialogs := t.dialogs + [NewGroupChat(g, Elems(ids))],
                 notifications := t.notifications + GroupNotices(ids, chat, text),
                 pushes := t.pushes + GroupPushes(ids, chat, text)))
  }

  /** `create_group(user_ids)`, under the name built from its users. */
  function CreateGroupSpec(t: Tables, ids: seq<UserId>): Run
    requires IdsIn(ids, |t.users|)
  {
    AddGroup(t, ids, GroupName(t.users, ids))
  }

  /** `create_group`: the group, its memberships, its chat, then for each
      user a notification and a push. */
  method CreateGroup(db: Store, ids: seq<UserId>) returns (ok: bool)
    requires IdsIn(ids, |db.users|)
    modifies db
    ensures ok ==> CreateGroupSpec(old(db.State()), ids) == Running(db.State())
    ensures !ok ==> CreateGroupSpec(old(db.State()), ids) == Aborted(old(db.pushes))
    ensures !ok ==> db.State() == old(db.State())
  {
    ghost var t0 := db.State();
    var users := SortNats(ids);
    var name := GroupName(db.users, ids);
    if NameTaken(db.groups, name) || |name| > NAME_MAX_LENGTH {
      return false;
    }
    var g := |db.groups|;
    var chat := |db.dialogs|;
    var text := NewGroupText(name);
    ghost var t1 := CreateGroupSpec(t0, ids).t;
    db.groups := db.groups + [Group(name, AUTO_DESCRIPTION)];
    db.members := db.members + MembershipRows(users, g);
    db.dialogs := db.dialogs + [NewGroupChat(g, Elems(ids))];
    assert db.State() == t1.(notifications := t0.notifications, pushes := t0.pushes);
    NotifyAdded(db, ids, chat, text);
    ok := true;
  }

  /** The loop at the end of `create_group`: a notification row and a push
      for every user of the chunk, in chunk order. */
  method NotifyAdded(db: Store, ids: seq<UserId>, chat: nat, text: string)
    modifies db
    ensures db.State() == old(db.State()).(notifications := old(db.notifications) + GroupNotices(ids, chat, text),
                                           pushes := old(db.pushes) + GroupPushes(ids, chat, text))
  {
    ghost var t0 := db.State();
    assert GroupNotices(ids[..0], chat, text) == [] && GroupPushes(ids[..0], chat, text) == [];
    var k := 0;
    while k < |ids|
      invariant 0 <= k <= |ids|
      invariant db.State() == t0.(notifications := t0.notifications + GroupNotices(ids[..k], chat, text),
                                  pushes := t0.pushes + GroupPushes(ids[..k], chat, text))
    {
      NoticesStep(ids, k, chat, text);
      db.notifications := db.notifications + [NewNotification(ids[k], chat, text)];
      db.pushes := db.pushes + [Push(UserChannel(ids[k]), Notify(chat, text))];
      k := k + 1;
    }
    assert ids[..|ids|] == ids;
  }

  lemma NoticesStep(ids: seq<UserId>, k: nat, chat: nat, text: string)
    requires k < |ids|
    ensures GroupNotices(ids[..k + 1], chat, text) == GroupNotices(ids[..k], chat, text) + [NewNotification(ids[k], chat, text)]
    ensures GroupPushes(ids[..k + 1], chat, text) == GroupPushes(ids[..k], chat, text) + [Push(UserChannel(ids[k]), Notify(chat, text))]
  {
  }

  // ---------------------------------------------------------------- build_groups

  /** Every clique lists distinct known users. */
  predicate CliquesOk(cs: seq<seq<UserId>>, nUsers: nat) {
    forall k :: 0 <= k < |cs| ==> Distinct(cs[k]) && IdsIn(cs[k], nUsers)
  }

  /** The chunks one clique contributes: none below five users. */
  function ChunksOf(clique: seq<UserId>): (r: seq<seq<UserId>>)
    ensures forall k :: 0 <= k < |r| ==> MIN_SIZE <= |r[k]| <= MAX_SIZE
  {
    if |clique| < MIN_SIZE then [] else Split(clique)
  }

  /** The chunks `build_groups` visits, clique after clique; each has five to
      seven users. */
  function Chunks(cliques: seq<seq<UserId>>): (r: seq<seq<UserId>>)
    ensures forall k :: 0 <= k < |r| ==> MIN_SIZE <= |r[k]| <= MAX_SIZE
  {
    if cliques == [] then []
    else Chunks(cliques[..|cliques| - 1]) + ChunksOf(cliques[|cliques| - 1])
  }

  /** Slices of a clique of distinct known users are such cliques too. */
  lemma ChunksOfOk(clique: seq<UserId>, n: nat)
    requires Distinct(clique) && IdsIn(clique, n)
    ensures CliquesOk(ChunksOf(clique), n)
  {
    var cs := ChunksOf(clique);
    if |clique| > MAX_SIZE {
      forall k | 0 <= k < |cs| ensures Distinct(cs[k]) && IdsIn(cs[k], n) {
        var a := k * MAX_SIZE;
        assert cs[k] == clique[a .. a + |cs[k]|];
        assert forall p :: 0 <= p < |cs[k]| ==> cs[k][p] == clique[a + p];
      }
    }
  }

  lemma {:induction false} ChunksOk(cliques: seq<seq<UserId>>, n: nat)
    requires CliquesOk(cliques, n)
    ensures CliquesOk(Chunks(cliques), n)
  {
    if cliques != [] {
      ChunksOk(cliques[..|cliques| - 1], n);
      ChunksOfOk(cliques[|cliques| - 1], n);
    }
  }

  /** The chunks of the first `m` cliques come first. */
  lemma {:induction false} ChunksPrefix(cliques: seq<seq<UserId>>, m: nat)
    requires m <= |cliques|
    ensures Chunks(cliques[..m]) <= Chunks(cliques)
  {
    if m < |cliques| {
      var init := cliques[..|cliques| - 1];
      assert init[..m] == cliques[..m];
      ChunksPrefix(init, m);
    } else {
      assert cliques[..m] == cliques;
    }
  }

  lemma ChunksStep(cliques: seq<seq<UserId>>, i: nat, n: nat)
    requires i < |cliques| && CliquesOk(cliques, n)
    ensures Chunks(cliques[..i + 1]) == Chunks(cliques[..i]) + ChunksOf(cliques[i])
    ensures CliquesOk(Chunks(cliques[..i]), n) && CliquesOk(Chunks(cliques[..i + 1]), n)
  {
    assert cliques[..i + 1][..i] == cliques[..i];
    ChunksOk(cliques[..i], n);
    ChunksOk(cliques[..i + 1], n);
  }

  /** One chunk of the loop: an existing group is skipped, otherwise the
      group is created; once a run has failed nothing more happens. */
  function Step(run: Run, chunk: seq<UserId>): Run
    requires run.Running? ==> IdsIn(chunk, |run.t.users|)
  {
    match run
    case Aborted(_) => run
    case Running(t) => if GroupExists(t, chunk) then run else CreateGroupSpec(t, chunk)
  }

  /** The loop of `build_groups` over `chunks`, from the tables `t`. */
  function RunChunks(t: Tables, chunks: seq<seq<UserId>>): (r: Run)
    requires CliquesOk(chunks, |t.users|)
    ensures r.Running? ==> r.t.users == t.users && r.t.likes == t.likes
  {
    if chunks == [] then Running(t)
    else Step(RunChunks(t, chunks[..|chunks| - 1]), chunks[|chunks| - 1])
  }

  lemma RunStep(t: Tables, cs: seq<seq<UserId>>, c: seq<UserId>)
    requires CliquesOk(cs + [c], |t.users|)
    ensures CliquesOk(cs, |t.users|) && IdsIn(c, |t.users|) && Distinct(c)
    ensures RunChunks(t, cs + [c]) == Step(RunChunks(t, cs), c)
  {
    assert (cs + [c])[..|cs|] == cs;
    assert (cs + [c])[|cs|] == c;
  }

  lemma PrefixOk(done: seq<seq<UserId>>, chunks: seq<seq<UserId>>, j: nat, n: nat)
    requires CliquesOk(done + chunks, n) && j <= |chunks|
    ensures CliquesOk(done + chunks[..j], n) && done + chunks[..j] <= done + chunks
    ensures j == 0 ==> done + chunks[..j] == done
    ensures j == |chunks| ==> done + chunks[..j] == done + chunks
    ensures 0 < j ==> done + chunks[..j] == (done + chunks[..j - 1]) + [chunks[j - 1]]
  {
    assert forall k :: 0 <= k < |done| + j ==> (done + chunks[..j])[k] == (done + chunks)[k];
  }

  /** A failed run stays failed. */
  lemma {:induction false} AbortSticks(t: Tables, cs: seq<seq<UserId>>, ds: seq<seq<UserId>>)
    requires CliquesOk(ds, |t.users|) && cs <= ds
    requires RunChunks(t, cs).Aborted?
    ensures RunChunks(t, ds) == RunChunks(t, cs)
  {
    if |ds| > |cs| {
      var init := ds[..|ds| - 1];
      assert cs <= init;
      AbortSticks(t, cs, init);
    } else {
      assert ds == cs;
    }
  }

  /** A run that failed within the first `m` cliques fails as a whole. */
  lemma AbortAll(t: Tables, cliques: seq<seq<UserId>>, m: nat)
    requires m <= |cliques| && CliquesOk(cliques, |t.users|)
    requires CliquesOk(Chunks(cliques[..m]), |t.users|)
    requires RunChunks(t, Chunks(cliques[..m])).Aborted?
    ensures CliquesOk(Chunks(cliques), |t.users|)
    ensures RunChunks(t, Chunks(cliques)) == RunChunks(t, Chunks(cliques[..m]))
  {
    ChunksOk(cliques, |t.users|);
    ChunksPrefix(cliques, m);
    AbortSticks(t, Chunks(cliques[..m]), Chunks(cliques));
  }

  /** `build_groups`, all of it one transaction: the tables after the run,
      or (when an insert failed) the tables as they were before it, with
      only the events already sent kept; and whether the run completed. */
  function BuildGroupsSpec(t: Tables, cliques: seq<seq<UserId>>): (Tables, bool)
    requires CliquesOk(cliques, |t.users|)
  {
    ChunksOk(cliques, |t.users|);
    match RunChunks(t, Chunks(cliques))
    case Running(t') => (t', true)
    case Aborted(sent) => (t.(pushes := sent), false)
  }

  /** `build_groups`: build the graph, enumerate its maximal cliques with
      `findCliques` (networkx's `find_cliques`), and visit every chunk. */
  method BuildGroups(db: Store, findCliques: Graph -> seq<seq<UserId>>) returns (built: bool)
    requires CliquesOk(findCliques(MutualGraph(db.State())), |db.users|)
    modifies db
    ensures (db.State(), built) == BuildGroupsSpec(old(db.State()), findCliques(MutualGraph(old(db.State()))))
  {
    var t0 := db.State();  // what the transaction rolls back to
    var g := BuildGraph(db);
    var cliques := findCliques(g);
    assert CliquesOk(cliques, |t0.users|);
    ChunksOk(cliques, |t0.users|);
    assert cliques[..0] == [];
    var i := 0;
    while i < |cliques|
      invariant 0 <= i <= |cliques|
      invariant CliquesOk(Chunks(cliques[..i]), |t0.users|)
      invariant RunChunks(t0, Chunks(cliques[..i])) == Running(db.State())
    {
      var ok := VisitClique(db, t0, cliques, i);
      if !ok {
        var sent := db.pushes;
        db.Load(t0.(pushes := sent));
        return false;
      }
      i := i + 1;
    }
    assert cliques[..|cliques|] == cliques;
    built := true;
  }

  /** One pass of the outer loop of `build_groups`: the chunks of clique `i`
      (none when it has fewer than five users); false when creating a group
      failed, and then the whole run has failed. */
  method VisitClique(db: Store, ghost t0: Tables, cliques: seq<seq<UserId>>, i: nat) returns (ok: bool)
    requires i < |cliques| && CliquesOk(cliques, |t0.users|)
    requires CliquesOk(Chunks(cliques[..i]), |t0.users|)
    requires RunChunks(t0, Chunks(cliques[..i])) == Running(db.State())
    modifies db
    ensures CliquesOk(Chunks(cliques[..i + 1]), |t0.users|) && CliquesOk(Chunks(cliques), |t0.users|)
    ensures ok ==> RunChunks(t0, Chunks(cliques[..i + 1])) == Running(db.State())
    ensures !ok ==> RunChunks(t0, Chunks(cliques)) == Aborted(db.pushes)
  {
    ChunksStep(cliques, i, |t0.users|);
    ChunksOk(cliques, |t0.users|);
    ghost var done := Chunks(cliques[..i]);
    var clique := cliques[i];
    if |clique| >= MIN_SIZE {
      var chunks := SplitClique(clique);
      ok := VisitChunks(db, t0, done, chunks);
      if !ok {
        AbortAll(t0, cliques, i + 1);
        return;
      }
      assert Chunks(cliques[..i + 1]) == done + chunks;
    } else {
      assert Chunks(cliques[..i + 1]) == done + [];
      assert done + [] == done;
      ok := true;
    }
  }

  /** The inner loop of `build_groups` over the chunks of one clique, after
      the chunks `done`; false when creating a group failed. */
  method VisitChunks(db: Store, ghost t0: Tables, ghost done: seq<seq<UserId>>, chunks: seq<seq<UserId>>)
    returns (ok: bool)
    requires CliquesOk(done, |t0.users|) && CliquesOk(done + chunks, |t0.users|)
    requires RunChunks(t0, done) == Running(db.State())
    modifies db
    ensures ok ==> RunChunks(t0, done + chunks) == Running(db.State())
    ensures !ok ==> RunChunks(t0, done + chunks) == Aborted(db.pushes)
  {
    PrefixOk(done, chunks, 0, |t0.users|);
    var j := 0;
    while j < |chunks|
      invariant 0 <= j <= |chunks|
      invariant CliquesOk(done + chunks[..j], |t0.users|)
      invariant RunChunks(t0, done + chunks[..j]) == Running(db.State())
    {
      PrefixOk(done, chunks, j + 1, |t0.users|);
      ok := VisitChunk(db, t0, done + chunks[..j], chunks[j]);
      if !ok {
        AbortSticks(t0, done + chunks[..j + 1], done + chunks);
        return;
      }
      j := j + 1;
    }
    assert chunks[..|chunks|] == chunks;
    ok := true;
  }

  /** One chunk: an existing group is skipped, otherwise the group is
      created; false when the insert failed. */
  method VisitChunk(db: Store, ghost t0: Tables, ghost prefix: seq<seq<UserId>>, chunk: seq<UserId>)
    returns (ok: bool)
    requires CliquesOk(prefix, |t0.users|) && CliquesOk(prefix + [chunk], |t0.users|)
    requires RunChunks(t0, prefix) == Running(db.State())
    modifies db
    ensures ok ==> RunChunks(t0, prefix + [chunk]) == Running(db.State())
    ensures !ok ==> RunChunks(t0, prefix + [chunk]) == Aborted(db.pushes)
  {
    RunStep(t0, prefix, chunk);
    ok := true;
    if !GroupExists(db.State(), chunk) {
      ok := CreateGroup(db, chunk);
    }
  }

  // ---------------------------------------------------------------- properties

  lemma {:induction false} MemberIdsAppend(ms: seq<GroupMember>, rows: seq<GroupMember>, g: nat)
    ensures MemberIds(ms + rows, g) == MemberIds(ms, g) + MemberIds(rows, g)
  {
    if rows == [] {
      assert ms + rows == ms;
    } else {
      var init := rows[..|rows| - 1];
      assert (ms + rows)[..|ms + rows| - 1] == ms + init;
      MemberIdsAppend(ms, init, g);
    }
  }

  lemma MembershipRowsIds(users: seq<UserId>, g: nat, h: nat)
    ensures MemberIds(MembershipRows(users, g), h) == if h == g then Elems(users) else {}
  {
    var rows := MembershipRows(users, g);
    MemberIdsFacts(rows, h);
    forall u ensures u in MemberIds(rows, h) <==> h == g && u in users {
      if h == g && u in users {
        var k :| 0 <= k < |users| && users[k] == u;
        assert rows[k].group == g && rows[k].user == u;
      }
    }
  }

  /** A created group's members are exactly the chunk, it has one membership
      row per user, its chat holds exactly the chunk, and every chunk user
      gets one notification. */
  lemma CreateGroupEffects(t: Tables, ids: seq<UserId>, name: string)
    requires MembersOk(t.members, |t.users|, |t.groups|)
    requires Distinct(ids)
    requires AddGroup(t, ids, name).Running?
    ensures var t' := AddGroup(t, ids, name).t;
      |t'.groups| == |t.groups| + 1
      && MemberIds(t'.members, |t.groups|) == Elems(ids)
      && MemberCount(t'.members, |t.groups|) == |ids|
      && |t'.dialogs| == |t.dialogs| + 1 && t'.dialogs[|t.dialogs|].users == Elems(ids)
      && t'.dialogs[|t.dialogs|].group == Some(|t.groups|)
      && |t'.notifications| == |t.notifications| + |ids|
  {
    var t' := AddGroup(t, ids, name).t;
    var g := |t.groups|;
    var users := SortNats(ids);
    SortNatsFacts(ids);
    assert t'.members == t.members + MembershipRows(users, g);
    assert Elems(users) == Elems(ids);
    assert Distinct(users) by {
      assert Increasing(users);
    }
    NewGroupRows(t.members, users, g);
  }

  /** Appending the rows of a new group `g` for distinct users: the group's
      members are those users, one row each. */
  lemma NewGroupRows(ms: seq<GroupMember>, users: seq<UserId>, g: nat)
    requires forall k :: 0 <= k < |ms| ==> ms[k].group < g
    requires Distinct(users)
    ensures MemberIds(ms + MembershipRows(users, g), g) == Elems(users)
    ensures MemberCount(ms + MembershipRows(users, g), g) == |users|
  {
    var rows := MembershipRows(users, g);
    MemberIdsAppend(ms, rows, g);
    MemberCountAppend(ms, rows, g);
    MemberCountNone(ms, g);
    MemberIdsFacts(ms, g);
    assert MemberIds(ms, g) == {} by {
      assert forall u :: u !in MemberIds(ms, g);
    }
    MembershipRowsIds(users, g, g);
    MemberCountIsCard(rows, g);
    DistinctCard(users);
  }

  lemma {:induction false} MemberCountAppend(ms: seq<GroupMember>, rows: seq<GroupMember>, g: nat)
    ensures MemberCount(ms + rows, g) == MemberCount(ms, g) + MemberCount(rows, g)
  {
    if rows == [] {
      assert ms + rows == ms;
    } else {
      var init := rows[..|rows| - 1];
      assert (ms + rows)[..|ms + rows| - 1] == ms + init;
      MemberCountAppend(ms, init, g);
    }
  }

  lemma {:induction false} MemberCountNone(ms: seq<GroupMember>, g: nat)
    requires forall k :: 0 <= k < |ms| ==> ms[k].group != g
    ensures MemberCount(ms, g) == 0
  {
    if ms != [] {
      MemberCountNone(ms[..|ms| - 1], g);
    }
  }

  /** Creating a group leaves the members of every older group as they were. */
  lemma CreateGroupKeepsGroups(t: Tables, ids: seq<UserId>, name: string)
    requires AddGroup(t, ids, name).Running?
    ensures forall g :: 0 <= g < |t.groups| ==>
      MemberIds(AddGroup(t, ids, name).t.members, g) == MemberIds(t.members, g)
  {
    var t' := AddGroup(t, ids, name).t;
    var rows := MembershipRows(SortNats(ids), |t.groups|);
    assert t'.members == t.members + rows;
    forall h | 0 <= h < |t.groups| ensures MemberIds(t'.members, h) == MemberIds(t.members, h) {
      MemberIdsAppend(t.members, rows, h);
      MembershipRowsIds(SortNats(ids), |t.groups|, h);
    }
  }

  /** The rows of a new group `g` for distinct known users keep the
      membership table consistent. */
  lemma MembersOkAppend(ms: seq<GroupMember>, users: seq<UserId>, nUsers: nat, g: nat)
    requires MembersOk(ms, nUsers, g)
    requires Increasing(users) && IdsIn(users, nUsers)
    ensures MembersOk(ms + MembershipRows(users, g), nUsers, g + 1)
  {
    var rows := MembershipRows(users, g);
    var all := ms + rows;
    forall i | 0 <= i < |all| ensures all[i].user < nUsers && all[i].group < g + 1 {
      if i >= |ms| {
        assert all[i] == rows[i - |ms|];
      }
    }
    forall i, j | 0 <= i < j < |all| ensures (all[i].user, all[i].group) != (all[j].user, all[j].group) {
      if i >= |ms| {
        assert all[i] == rows[i - |ms|] && all[j] == rows[j - |ms|];
      } else if j >= |ms| {
        assert all[i] == ms[i] && all[j] == rows[j - |ms|];
      } else {
        assert all[i] == ms[i] && all[j] == ms[j];
      }
    }
  }

  lemma MembersOkAfterCreate(t: Tables, ids: seq<UserId>, name: string)
    requires MembersOk(t.members, |t.users|, |t.groups|)
    requires IdsIn(ids, |t.users|) && Distinct(ids)
    requires AddGroup(t, ids, name).Running?
    ensures var t' := AddGroup(t, ids, name).t; MembersOk(t'.members, |t'.users|, |t'.groups|)
  {
    var t' := AddGroup(t, ids, name).t;
    var users := SortNats(ids);
    SortNatsFacts(ids);
    assert t'.members == t.members + MembershipRows(users, |t.groups|);
    assert |t'.groups| == |t.groups| + 1 && t'.users == t.users;
    assert IdsIn(users, |t.users|) by {
      assert forall k :: 0 <= k < |users| ==> users[k] in ids;
    }
    assert Increasing(users);
    MembersOkAppend(t.members, users, |t.users|, |t.groups|);
  }

  lemma DialogsOkAfterCreate(t: Tables, ids: seq<UserId>, name: string)
    requires ValidTables(t)
    requires IdsIn(ids, |t.users|)
    requires AddGroup(t, ids, name).Running?
    ensures var t' := AddGroup(t, ids, name).t;
      DialogsOk(t'.dialogs, |t'.users|, |t'.messages|, |t'.groups|)
      && NotificationsOk(t'.notifications, |t'.users|, |t'.dialogs|)
  {
    var t' := AddGroup(t, ids, name).t;
    var ds := t'.dialogs;
    var n := |t.dialogs|;
    assert ds == t.dialogs + [NewGroupChat(|t.groups|, Elems(ids))];
    forall i, u | 0 <= i < |ds| && u in ds[i].users ensures u < |t.users| {
      if i == n {
        assert u in ids;
      }
    }
    forall i, j, a, b | 0 <= i < j < |ds| && a in ds[i].users && b in ds[i].users && a != b && !IsGroupChat(ds[i])
      ensures !DirectWith(ds[j], a, b)
    {
      if j == n {
        assert IsGroupChat(ds[j]);
      }
    }
    var ns := t'.notifications;
    var added := GroupNotices(ids, n, NewGroupText(name));
    assert ns == t.notifications + added;
    forall i | 0 <= i < |ns| ensures ns[i].user < |t'.users| && ns[i].dialog < |t'.dialogs| {
      if i >= |t.notifications| {
        assert ns[i] == added[i - |t.notifications|];
      }
    }
  }

  /** Creating a group keeps every table constraint. */
  lemma CreateGroupKeepsValid(t: Tables, ids: seq<UserId>, name: string)
    requires ValidTables(t)
    requires IdsIn(ids, |t.users|) && Distinct(ids)
    requires AddGroup(t, ids, name).Running?
    ensures ValidTables(AddGroup(t, ids, name).t)
  {
    MembersOkAfterCreate(t, ids, name);
    DialogsOkAfterCreate(t, ids, name);
    var t' := AddGroup(t, ids, name).t;
    assert t'.groups == t.groups + [Group(name, AUTO_DESCRIPTION)];
    assert !NameTaken(t.groups, name);
  }

  /** A run ends with the step of its last chunk, and is still going only
      if it was before that step. */
  lemma RunLast(t: Tables, cs: seq<seq<UserId>>)
    requires CliquesOk(cs, |t.users|) && cs != []
    ensures CliquesOk(cs[..|cs| - 1], |t.users|)
    ensures IdsIn(cs[|cs| - 1], |t.users|) && Distinct(cs[|cs| - 1])
    ensures RunChunks(t, cs) == Step(RunChunks(t, cs[..|cs| - 1]), cs[|cs| - 1])
    ensures RunChunks(t, cs).Running? ==> RunChunks(t, cs[..|cs| - 1]).Running?
  {
  }

  /** A completed run keeps the tables valid and leaves the users and the
      likes, hence the graph, alone. */
  lemma {:induction false} RunKeepsValid(t: Tables, cs: seq<seq<UserId>>)
    requires ValidTables(t) && CliquesOk(cs, |t.users|)
    requires RunChunks(t, cs).Running?
    ensures ValidTables(RunChunks(t, cs).t)
  {
    if cs != [] {
      var init := cs[..|cs| - 1];
      var c := cs[|cs| - 1];
      RunLast(t, cs);
      RunKeepsValid(t, init);
      StepKeepsValid(RunChunks(t, init).t, c, RunChunks(t, cs).t);
    }
  }

  lemma StepKeepsValid(t: Tables, c: seq<UserId>, t': Tables)
    requires ValidTables(t) && IdsIn(c, |t.users|) && Distinct(c)
    requires Step(Running(t), c).Running? && t' == Step(Running(t), c).t
    ensures ValidTables(t')
  {
    if !GroupExists(t, c) {
      var name := GroupName(t.users, c);
      assert Step(Running(t), c) == AddGroup(t, c, name);
      CreateGroupKeepsValid(t, c, name);
    }
  }

  /** A completed run keeps the membership table consistent. */
  lemma {:induction false} RunKeepsMembers(t: Tables, cs: seq<seq<UserId>>)
    requires MembersOk(t.members, |t.users|, |t.groups|) && CliquesOk(cs, |t.users|)
    requires RunChunks(t, cs).Running?
    ensures var t' := RunChunks(t, cs).t; MembersOk(t'.members, |t'.users|, |t'.groups|)
  {
    if cs != [] {
      var init := cs[..|cs| - 1];
      var c := cs[|cs| - 1];
      RunLast(t, cs);
      RunKeepsMembers(t, init);
      StepKeepsMembers(RunChunks(t, init).t, c);
    }
  }

  lemma StepKeepsMembers(t: Tables, c: seq<UserId>)
    requires MembersOk(t.members, |t.users|, |t.groups|) && IdsIn(c, |t.users|) && Distinct(c)
    requires Step(Running(t), c).Running?
    ensures var t' := Step(Running(t), c).t; MembersOk(t'.members, |t'.users|, |t'.groups|)
  {
    if !GroupExists(t, c) {
      var name := GroupName(t.users, c);
      assert Step(Running(t), c) == AddGroup(t, c, name);
      MembersOkAfterCreate(t, c, name);
    }
  }

  /** After a completed run every visited chunk is the member set of some
      group. */
  lemma {:induction false} RunGroups(t: Tables, cs: seq<seq<UserId>>)
    requires MembersOk(t.members, |t.users|, |t.groups|) && CliquesOk(cs, |t.users|)
    requires RunChunks(t, cs).Running?
    ensures AllGrouped(RunChunks(t, cs).t, cs)
  {
    if cs != [] {
      var init := cs[..|cs| - 1];
      var c := cs[|cs| - 1];
      RunLast(t, cs);
      RunGroups(t, init);
      RunKeepsMembers(t, init);
      var tp := RunChunks(t, init).t;
      var t' := RunChunks(t, cs).t;
      assert RunChunks(t, init) == Running(tp);
      StepGroups(tp, init, c, t');
      AllGroupedLast(t', cs);
    }
  }

  /** One chunk of a run keeps the groups of the chunks before it and leaves
      a group of the chunk. */
  lemma StepGroups(t: Tables, done: seq<seq<UserId>>, c: seq<UserId>, t': Tables)
    requires MembersOk(t.members, |t.users|, |t.groups|) && IdsIn(c, |t.users|) && Distinct(c)
    requires AllGrouped(t, done)
    requires Step(Running(t), c) == Running(t')
    ensures AllGrouped(t', done) && HasGroupOf(t', c)
  {
    GroupExistsIff(t, c);
    if !GroupExists(t, c) {
      var name := GroupName(t.users, c);
      assert Step(Running(t), c) == AddGroup(t, c, name);
      AddGroupGroups(t, done, c, name);
    }
  }

  /** Creating the group of chunk `c` keeps the groups of the chunks before
      it and leaves a group of `c`. */
  lemma AddGroupGroups(t: Tables, done: seq<seq<UserId>>, c: seq<UserId>, name: string)
    requires MembersOk(t.members, |t.users|, |t.groups|) && Distinct(c)
    requires AllGrouped(t, done)
    requires AddGroup(t, c, name).Running?
    ensures AllGrouped(AddGroup(t, c, name).t, done) && HasGroupOf(AddGroup(t, c, name).t, c)
  {
    var t' := AddGroup(t, c, name).t;
    CreateGroupEffects(t, c, name);
    CreateGroupKeepsGroups(t, c, name);
    forall k | 0 <= k < |done| ensures HasGroupOf(t', done[k]) {
      var g :| 0 <= g < |t.groups| && MemberIds(t.members, g) == Elems(done[k]);
      assert MemberIds(t'.members, g) == Elems(done[k]);
    }
    assert MemberIds(t'.members, |t.groups|) == Elems(c);
  }

  /** A run over chunks that are all groups already changes nothing. */
  lemma {:induction false} RunNoop(t: Tables, cs: seq<seq<UserId>>)
    requires MembersOk(t.members, |t.users|, |t.groups|) && CliquesOk(cs, |t.users|)
    requires AllGrouped(t, cs)
    ensures RunChunks(t, cs) == Running(t)
  {
    if cs != [] {
      var init := cs[..|cs| - 1];
      var c := cs[|cs| - 1];
      RunLast(t, cs);
      AllGroupedSnoc(t, init, c);
      RunNoop(t, init);
      GroupExistsIff(t, c);
      assert GroupExists(t, c);
    }
  }

  /** Within one run, a chunk equal to one already visited is skipped. */
  lemma RepeatedChunkSkipped(t: Tables, cs: seq<seq<UserId>>, c: seq<UserId>)
    requires ValidTables(t) && CliquesOk(cs + [c, c], |t.users|)
    ensures CliquesOk(cs + [c], |t.users|)
    ensures RunChunks(t, cs + [c, c]) == RunChunks(t, cs + [c])
  {
    assert cs + [c, c] == (cs + [c]) + [c];
    RunStep(t, cs + [c], c);
    var r := RunChunks(t, cs + [c]);
    if r.Running? {
      RunKeepsValid(t, cs + [c]);
      RunGroups(t, cs + [c]);
      assert (cs + [c])[|cs|] == c;
      GroupExistsIff(r.t, c);
    }
  }

  /** Running `build_groups` again on what a completed run produced: the
      graph is unchanged, and the second run creates no group, chat,
      membership, notification or event. */
  lemma BuildGroupsIdempotent(t: Tables, findCliques: Graph -> seq<seq<UserId>>)
    requires ValidTables(t) && CliquesOk(findCliques(MutualGraph(t)), |t.users|)
    requires BuildGroupsSpec(t, findCliques(MutualGraph(t))).1
    ensures var t' := BuildGroupsSpec(t, findCliques(MutualGraph(t))).0;
      MutualGraph(t') == MutualGraph(t) && |t'.users| == |t.users|
    ensures var t' := BuildGroupsSpec(t, findCliques(MutualGraph(t))).0;
      BuildGroupsSpec(t', findCliques(MutualGraph(t'))) == (t', true)
  {
    var cliques := findCliques(MutualGraph(t));
    ChunksOk(cliques, |t.users|);
    var cs := Chunks(cliques);
    RunKeepsValid(t, cs);
    RunGroups(t, cs);
    var t' := RunChunks(t, cs).t;
    RunNoop(t', cs);
  }

  /** The pushes sent so far by a run, whether it is still going or aborted. */
  function SentBy(r: Run): seq<Push> {
    if r.Running? then r.t.pushes else r.pushes
  }

  /** One chunk only adds pushes. */
  lemma StepPushesGrow(r: Run, c: seq<UserId>, r': Run)
    requires r.Running? ==> IdsIn(c, |r.t.users|)
    requires r' == Step(r, c)
    ensures SentBy(r) <= SentBy(r')
  {
    if r.Running? && !GroupExists(r.t, c) {
      var name := GroupName(r.t.users, c);
      assert r' == AddGroup(r.t, c, name);
    }
  }

  /** A run, completed or aborted, keeps the pushes sent before it and only
      adds to them. */
  lemma {:induction false} RunPushesGrow(t: Tables, cs: seq<seq<UserId>>)
    requires CliquesOk(cs, |t.users|)
    ensures t.pushes <= SentBy(RunChunks(t, cs))
  {
    if cs != [] {
      var init := cs[..|cs| - 1];
      var c := cs[|cs| - 1];
      RunLast(t, cs);
      RunPushesGrow(t, init);
      StepPushesGrow(RunChunks(t, init), c, RunChunks(t, cs));
    }
  }

  lemma BuildGroupsRollback(t: Tables, cliques: seq<seq<UserId>>)
    requires CliquesOk(cliques, |t.users|)
    requires !BuildGroupsSpec(t, cliques).1
    ensures var t' := BuildGroupsSpec(t, cliques).0;
      t' == t.(pushes := t'.pushes) && t.pushes <= t'.pushes
  {
    ChunksOk(cliques, |t.users|);
    RunPushesGrow(t, Chunks(cliques));
  }
}
