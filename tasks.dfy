/** The periodic inactivity sweep of the users app. */
module UserTasks {
  import opened Common
  import opened UserModels
  import opened Db

  /** `timedelta(days=7)`; clock readings and `last_login` are microseconds. */
  const WEEK: int := 7 * 24 * 60 * 60 * 1000000

  /** The row matches `last_login__lt=cutoff, is_active=True`; a null
      `last_login` never satisfies the comparison. */
  predicate Stale(u: User, cutoff: int) {
    u.isActive && u.lastLogin.Some? && u.lastLogin.value < cutoff
  }

  /** The row after the bulk `update(is_active=False)`. */
  function SweptRow(u: User, cutoff: int): User {
    if Stale(u, cutoff) then u.(isActive := false) else u
  }

  /** The user table after the sweep. */
  function Swept(users: seq<User>, cutoff: int): (r: seq<User>)
    ensures |r| == |users|
  {
    seq(|users|, k requires 0 <= k < |users| => SweptRow(users[k], cutoff))
  }

  /** The number of rows the update reports. */
  function CountStale(users: seq<User>, cutoff: int): nat {
    if users == [] then 0
    else CountStale(users[..|users| - 1], cutoff) + (if Stale(users[|users| - 1], cutoff) then 1 else 0)
  }

  /** The number of active rows. */
  function CountActive(users: seq<User>): nat {
    if users == [] then 0
    else CountActive(users[..|users| - 1]) + (if users[|users| - 1].isActive then 1 else 0)
  }

  /** The Celery job's return value, `f'deactivated {n}'`. */
  function Report(n: nat): string {
    "deactivated " + NatToString(n)
  }

  /** `deactivate_inactive_users` run at clock reading `now`: only the user
      table changes. */
  function SweepSpec(t: Tables, now: int): Tables {
    t.(users := Swept(t.users, now - WEEK))
  }

  /** `deactivate_inactive_users()`: the matching rows are flipped one by one. */
  method DeactivateInactiveUsers(db: Store, now: int) returns (report: string)
    modifies db
    ensures db.State() == SweepSpec(old(db.State()), now)
    ensures report == Report(CountStale(old(db.users), now - WEEK))
  {
    var cutoff := now - WEEK;
    ghost var before := db.users;
    var n := 0;
    var i := 0;
    while i < |db.users|
      invariant 0 <= i <= |db.users| == |before|
      invariant forall k :: 0 <= k < i ==> db.users[k] == SweptRow(before[k], cutoff)
      invariant forall k :: i <= k < |before| ==> db.users[k] == before[k]
      invariant n == CountStale(before[..i], cutoff)
      invariant db.State() == old(db.State()).(users := db.users)
    {
      assert before[..i + 1][..i] == before[..i];
      if Stale(db.users[i], cutoff) {
        db.users := db.users[i := db.users[i].(isActive := false)];
        n := n + 1;
      }
      i := i + 1;
    }
    assert before[..i] == before;
    assert db.users == Swept(before, cutoff);
    report := Report(n);
  }

  /** Exactly the stale rows become inactive; every other column of every
      row, and every row without a login, stays as it was. */
  lemma SweepFlipsExactlyStale(users: seq<User>, cutoff: int)
    ensures var r := Swept(users, cutoff);
      forall k :: 0 <= k < |users| ==>
        && (r[k].isActive <==> users[k].isActive && !Stale(users[k], cutoff))
        && r[k].(isActive := users[k].isActive) == users[k]
        && (users[k].lastLogin.None? ==> r[k] == users[k])
  {
  }

  /** The reported count is the number of users the sweep deactivated. */
  lemma {:induction false} CountIsDeactivated(users: seq<User>, cutoff: int)
    ensures CountActive(Swept(users, cutoff)) + CountStale(users, cutoff) == CountActive(users)
  {
    if users != [] {
      var init := users[..|users| - 1];
      CountIsDeactivated(init, cutoff);
      assert Swept(users, cutoff)[..|users| - 1] == Swept(init, cutoff);
    }
  }

  /** After the sweep no row is stale, so an immediate re-run flips nothing
      and reports `deactivated 0`. */
  lemma {:induction false} RerunFlipsNone(users: seq<User>, cutoff: int)
    ensures CountStale(Swept(users, cutoff), cutoff) == 0
    ensures Swept(Swept(users, cutoff), cutoff) == Swept(users, cutoff)
  {
    if users != [] {
      var init := users[..|users| - 1];
      RerunFlipsNone(init, cutoff);
      assert Swept(users, cutoff)[..|users| - 1] == Swept(init, cutoff);
    }
  }

  /** The sweep keeps every table constraint. */
  lemma SweepKeepsValid(t: Tables, now: int)
    requires ValidTables(t)
    ensures ValidTables(SweepSpec(t, now))
  {
    var r := Swept(t.users, now - WEEK);
    assert forall k :: 0 <= k < |r| ==> r[k].username == t.users[k].username && ValidUserRow(r[k]);
  }
}
