/** Interest groups and their memberships. */
module GroupModels {
  import opened UserModels

  /** A group row; its id is its position in the table, so a later id is a
      later `created_at`. */
  datatype Group = Group(name: string, description: string)

  datatype GroupMember = GroupMember(user: UserId, group: nat, isActive: bool, isAdmin: bool)

  /** A membership row created with the column defaults. */
  function NewMember(u: UserId, g: nat): (m: GroupMember)
    ensures m.user == u && m.group == g
    ensures m.isActive && !m.isAdmin
  {
    GroupMember(u, g, true, false)
  }

  /** `name` is declared unique. */
  predicate GroupNamesUnique(groups: seq<Group>) {
    forall i, j :: 0 <= i < j < |groups| ==> groups[i].name != groups[j].name
  }

  predicate NameTaken(groups: seq<Group>, name: string) {
    exists k :: 0 <= k < |groups| && groups[k].name == name
  }

  /** unique_together ('user', 'group'), and every row refers to a known user and group. */
  predicate MembersOk(ms: seq<GroupMember>, nUsers: nat, nGroups: nat) {
    (forall i :: 0 <= i < |ms| ==> ms[i].user < nUsers && ms[i].group < nGroups)
    && (forall i, j :: 0 <= i < j < |ms| ==> (ms[i].user, ms[i].group) != (ms[j].user, ms[j].group))
  }

  predicate IsActiveMember(ms: seq<GroupMember>, g: nat, u: UserId) {
    exists k :: 0 <= k < |ms| && ms[k].group == g && ms[k].user == u && ms[k].isActive
  }

  /** The active memberships of group `g` in join order (the table's ordering
      ['group', 'joined_at'] restricted to one group). */
  function ActiveMembersOf(ms: seq<GroupMember>, g: nat): (r: seq<GroupMember>)
    ensures forall m :: m in r <==> m in ms && m.group == g && m.isActive
    ensures |r| <= |ms|
  {
    if ms == [] then []
    else (if ms[0].group == g && ms[0].isActive then [ms[0]] else []) + ActiveMembersOf(ms[1..], g)
  }

  /** `x` is listed at some position before `y`. */
  predicate ListedBefore(r: seq<GroupMember>, x: GroupMember, y: GroupMember) {
    exists p, q :: 0 <= p < q < |r| && r[p] == x && r[q] == y
  }

  lemma ListedBeforeAppended(a: seq<GroupMember>, b: seq<GroupMember>, x: GroupMember, y: GroupMember)
    requires ListedBefore(b, x, y)
    ensures ListedBefore(a + b, x, y)
  {
    var p, q :| 0 <= p < q < |b| && b[p] == x && b[q] == y;
    assert (a + b)[p + |a|] == x && (a + b)[q + |a|] == y;
  }

  lemma ListedBeforeHead(x: GroupMember, b: seq<GroupMember>, y: GroupMember)
    requires y in b
    ensures ListedBefore([x] + b, x, y)
  {
    var q :| 0 <= q < |b| && b[q] == y;
    assert ([x] + b)[0] == x && ([x] + b)[q + 1] == y;
  }

  /** Two active memberships of `g` keep their table order in the list: the
      one that joined first is listed first. */
  lemma {:induction false} ActiveMembersInOrder(ms: seq<GroupMember>, g: nat, i: nat, j: nat)
    requires i < j < |ms|
    requires ms[i].group == g && ms[i].isActive && ms[j].group == g && ms[j].isActive
    ensures ListedBefore(ActiveMembersOf(ms, g), ms[i], ms[j])
  {
    var tail := ms[1..];
    var head := if ms[0].group == g && ms[0].isActive then [ms[0]] else [];
    assert ActiveMembersOf(ms, g) == head + ActiveMembersOf(tail, g);
    assert tail[j - 1] == ms[j];
    if i == 0 {
      ListedBeforeHead(ms[0], ActiveMembersOf(tail, g), ms[j]);
    } else {
      assert tail[i - 1] == ms[i];
      ActiveMembersInOrder(tail, g, i - 1, j - 1);
      ListedBeforeAppended(head, ActiveMembersOf(tail, g), ms[i], ms[j]);
    }
  }

  /** The groups among the first `n` in which `u` is an active member, newest
      first (ordering ['-created_at'], each group once). */
  function GroupsOf(ms: seq<GroupMember>, u: UserId, n: nat): (r: seq<nat>)
    ensures forall g: nat :: g in r <==> g < n && IsActiveMember(ms, g, u)
    ensures forall p, q :: 0 <= p < q < |r| ==> r[p] > r[q]
  {
    if n == 0 then []
    else
      var rest := GroupsOf(ms, u, n - 1);
      assert forall q :: 0 <= q < |rest| ==> rest[q] in rest;
      (if IsActiveMember(ms, n - 1, u) then [n - 1] else []) + rest
  }

  /** The users with an active membership in group `g`
      (`group.members.filter(is_active=True).values_list('user_id')`). */
  function ActiveMemberIds(ms: seq<GroupMember>, g: nat): (r: set<UserId>)
    ensures forall u :: u in r <==> IsActiveMember(ms, g, u)
  {
    if ms == [] then {}
    else
      var last := ms[|ms| - 1];
      var init := ms[..|ms| - 1];
      assert forall u :: IsActiveMember(ms, g, u) <==>
        IsActiveMember(init, g, u) || (last.group == g && last.user == u && last.isActive) by {
        forall u | IsActiveMember(ms, g, u) && !IsActiveMember(init, g, u)
          ensures last.group == g && last.user == u && last.isActive
        {
          var k :| 0 <= k < |ms| && ms[k].group == g && ms[k].user == u && ms[k].isActive;
          assert k == |init| by {
            assert forall j :: 0 <= j < |init| ==> init[j] == ms[j];
          }
        }
      }
      ActiveMemberIds(init, g) + (if last.group == g && last.isActive then {last.user} else {})
  }
}
