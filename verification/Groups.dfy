/** Group membership in the identity service. A group's members are kept as a list inside its row;
    `SetUserGroups` rewrites the rows one by one. */
module Groups {
  import opened Seqs
  import opened Results

  datatype Group = Group(status: string, members: seq<string>, policy: Option<string>, created: int)

  type Table = map<string, Group>

  datatype Error = GroupNameRequired

  const NO_ROW := Group("", [], None, 0)

  function RowOf(t: Table, name: string): Group {
    if name in t then t[name] else NO_ROW
  }

  /** What `UpsertGroup` leaves in the table. */
  function Upserted(t: Table, name: string, status: string, members: Option<seq<string>>, policy: Option<string>, now: int): Table {
    if name == "" then t else
    var old' := RowOf(t, name);
    t[name := Group(
      if status != "" then status else if old'.status != "" then old'.status else "enabled",
      if members.Some? then members.value else old'.members,
      if policy.None? then old'.policy else policy,
      if name in t then old'.created else now)]
  }

  function Without(members: seq<string>, user: string): seq<string> {
    if members == [] then []
    else (if members[0] == user then [] else [members[0]]) + Without(members[1..], user)
  }

  /** The row of an existing group after `SetUserGroups`. */
  function Rewritten(g: Group, user: string, wanted: bool): Group {
    var has := user in g.members;
    if !wanted && !has then g
    else g.(status := if g.status == "" then "enabled" else g.status,
            members := Without(g.members, user) + if wanted && !has then [user] else [])
  }

  /** The whole table after `SetUserGroups`. */
  function After(t: Table, user: string, names: set<string>, now: int): Table {
    map n | n in t.Keys + (names - {""}) ::
      if n in t then Rewritten(t[n], user, n in names) else Group("enabled", [user], None, now)
  }

  /** The whole table after `SetPolicyMultiple`: the named groups have the policy, and are there with a status. */
  function WithPolicy(t: Table, names: set<string>, policy: string, now: int): Table {
    map n | n in t.Keys + (names - {""}) ::
      if n !in names || n == "" then t[n]
      else if n !in t then Group("enabled", [], Some(policy), now)
      else t[n].(policy := Some(policy), status := if t[n].status == "" then "enabled" else t[n].status)
  }

  function Named(groups: seq<string>): set<string> {
    set g | g in groups
  }

  lemma PolicyOnOneMore(t: Table, groups: seq<string>, i: nat, policy: string, now: int)
    requires i < |groups|
    ensures WithPolicy(t, Named(groups[..i + 1]), policy, now)
            == Upserted(WithPolicy(t, Named(groups[..i]), policy, now), groups[i], "", None, Some(policy), now)
  {
    var names, name := Named(groups[..i]), groups[i];
    assert groups[..i + 1] == groups[..i] + [name];
    assert Named(groups[..i + 1]) == names + {name};
    var l, r := WithPolicy(t, names + {name}, policy, now), Upserted(WithPolicy(t, names, policy, now), name, "", None, Some(policy), now);
    assert l.Keys == r.Keys;
    forall n | n in l ensures l[n] == r[n] {}
  }

  class Service {
    var rows: Table

    /** No group has an empty name. */
    predicate Valid()
      reads this
    {
      "" !in rows
    }

    constructor ()
      ensures Valid() && rows == map[]
    {
      rows := map[];
    }

    method UpsertGroup(name: string, status: string, members: Option<seq<string>>, policy: Option<string>, now: int)
      returns (r: Result<(), Error>)
      requires Valid()
      modifies this
      ensures Valid()
      ensures rows == Upserted(old(rows), name, status, members, policy, now)
      ensures r.Err? <==> name == ""
    {
      if name == "" {
        return Err(GroupNameRequired);
      }
      var existing := if name in rows then rows[name] else NO_ROW;
      var status' := status;
      if status' == "" {
        status' := existing.status;
        if status' == "" {
          status' := "enabled";
        }
      }
      var raw := if members.Some? then members.value else existing.members;
      var policy' := if policy.None? then existing.policy else policy;
      var created := if name in rows then existing.created else now;
      rows := rows[name := Group(status', raw, policy', created)];
      return Ok(());
    }

    method SetUserGroups(access: string, groups: seq<string>, now: int)
      requires Valid()
      modifies this
      ensures Valid()
      ensures rows == After(old(rows), access, Named(groups), now)
    {
      ghost var names := Named(groups);
      var all := rows;
      var want := Named(groups);
      var todo := all.Keys;
      while todo != {}
        invariant todo <= all.Keys && rows.Keys == all.Keys && Valid()
        invariant want == names - (all.Keys - todo)
        invariant forall n :: n in all ==>
          rows[n] == if n in todo then all[n] else Rewritten(all[n], access, n in names)
        decreases todo
      {
        var n :| n in todo;
        todo := todo - {n};
        var g := all[n];
        var next, has := Strip(g.members, access);
        if n in want && !has {
          next := next + [access];
        }
        if n in want || has {
          var _ := UpsertGroup(n, g.status, Some(next), g.policy, now);
        }
        want := want - {n};
      }
      ghost var leftover := want;
      while want != {}
        invariant want <= leftover && leftover == names - all.Keys && Valid()
        invariant rows.Keys == all.Keys + (leftover - want - {""})
        invariant forall n :: n in rows ==>
          rows[n] == if n in all then Rewritten(all[n], access, n in names) else Group("enabled", [access], None, now)
        decreases want
      {
        var n :| n in want;
        want := want - {n};
        var _ := UpsertGroup(n, "enabled", Some([access]), None, now);
      }
    }

    /** The inner loop: the members other than `access`, and whether `access` was one of them. */
    static method Strip(members: seq<string>, access: string) returns (next: seq<string>, has: bool)
      ensures next == Without(members, access) && has == (access in members)
    {
      next, has := [], false;
      for i := 0 to |members|
        invariant next + Without(members[i..], access) == Without(members, access)
        invariant has == (access in members[..i])
      {
        assert members[i..][1..] == members[i + 1..];
        assert members[..i + 1] == members[..i] + [members[i]];
        Associates(next, [members[i]], Without(members[i + 1..], access));
        if members[i] == access {
          has := true;
        } else {
          next := next + [members[i]];
        }
      }
      assert members[..|members|] == members && members[|members|..] == [];
    }

    /** The groups' part of `SetPolicyMultiple`. */
    method SetPolicyMultiple(policy: string, groups: seq<string>, now: int)
      requires Valid()
      modifies this
      ensures Valid()
      ensures rows == WithPolicy(old(rows), Named(groups), policy, now)
    {
      for i := 0 to |groups|
        invariant Valid()
        invariant rows == WithPolicy(old(rows), Named(groups[..i]), policy, now)
      {
        PolicyOnOneMore(old(rows), groups, i, policy, now);
        var _ := UpsertGroup(groups[i], "", None, Some(policy), now);
      }
      assert groups[..|groups|] == groups;
    }

    method GroupsForUser(access: string) returns (out: seq<string>)
      ensures forall n :: n in out <==> n in GroupsOf(rows, access)
      ensures forall i, j :: 0 <= i < j < |out| ==> out[i] != out[j]
    {
      out := [];
      var todo := rows.Keys;
      while todo != {}
        invariant todo <= rows.Keys
        invariant forall n :: n in out <==> n in rows.Keys - todo && access in rows[n].members
        invariant forall i, j :: 0 <= i < j < |out| ==> out[i] != out[j]
        decreases todo
      {
        var n :| n in todo;
        todo := todo - {n};
        if access in rows[n].members {
          out := out + [n];
        }
      }
    }
  }

  // ----- What the rewriting does to memberships -----

  function GroupsOf(t: Table, user: string): set<string> {
    set n | n in t && user in t[n].members
  }

  lemma {:induction false} WithoutRemoves(members: seq<string>, user: string)
    ensures user !in Without(members, user)
    ensures forall v :: v != user ==> (v in Without(members, user) <==> v in members)
  {
    if members != [] {
      WithoutRemoves(members[1..], user);
      assert members == [members[0]] + members[1..];
    }
  }

  lemma {:induction false} WithoutAppend(a: seq<string>, b: seq<string>, user: string)
    ensures Without(a + b, user) == Without(a, user) + Without(b, user)
  {
    if a == [] {
      EmptyFirst(b);
      EmptyFirst(Without(b, user));
    } else {
      WithoutAppend(a[1..], b, user);
      HeadAndTail(a, b);
      Associates(if a[0] == user then [] else [a[0]], Without(a[1..], user), Without(b, user));
    }
  }

  lemma {:induction false} WithoutTwice(members: seq<string>, user: string)
    ensures Without(Without(members, user), user) == Without(members, user)
  {
    if members != [] {
      WithoutTwice(members[1..], user);
      WithoutAppend(if members[0] == user then [] else [members[0]], Without(members[1..], user), user);
    }
  }

  /** The exact effect: the user ends up in the wanted groups it was not yet in, and in no other. */
  lemma ExactEffect(t: Table, user: string, names: set<string>, now: int)
    requires "" !in t
    ensures GroupsOf(After(t, user, names, now), user) == (names - {""}) - GroupsOf(t, user)
  {
    var t' := After(t, user, names, now);
    forall n ensures n in GroupsOf(t', user) <==> n in (names - {""}) - GroupsOf(t, user) {
      if n in t { WithoutRemoves(t[n].members, user); }
    }
  }

  /** The intent, that the user is left in exactly the groups asked for, is met exactly when the user
      was in none of them before the call. */
  lemma IntentMetIff(t: Table, user: string, names: set<string>, now: int)
    requires "" !in t && "" !in names
    ensures GroupsOf(After(t, user, names, now), user) == names <==> names !! GroupsOf(t, user)
  {
    ExactEffect(t, user, names, now);
    assert names - {""} == names;
    assert names - (names - GroupsOf(t, user)) == names * GroupsOf(t, user);
  }

  /** Asking for the groups the user already has takes all of them away; asking again gives them back. */
  lemma RepeatingToggles(t: Table, user: string, now: int, later: int)
    requires "" !in t
    ensures var mine := GroupsOf(t, user);
      && GroupsOf(After(t, user, mine, now), user) == {}
      && GroupsOf(After(After(t, user, mine, now), user, mine, later), user) == mine
  {
    var mine := GroupsOf(t, user);
    ExactEffect(t, user, mine, now);
    ExactEffect(After(t, user, mine, now), user, mine, later);
  }

  /** Nobody else is touched: every existing group keeps its other members in their order, its policy and
      its date, and its status, which is set if it was empty and the row is rewritten; a row that is neither wanted
      nor the user's is not rewritten; a new group holds the user alone. */
  lemma OthersUntouched(t: Table, user: string, names: set<string>, now: int)
    ensures var t' := After(t, user, names, now);
      && t.Keys <= t'.Keys
      && (forall n :: n in t ==>
            && Without(t'[n].members, user) == Without(t[n].members, user)
            && t'[n].policy == t[n].policy && t'[n].created == t[n].created)
      && (forall n :: n in t ==>
            t'[n].status == if t[n].status == "" && (n in names || user in t[n].members) then "enabled" else t[n].status)
      && (forall n :: n in t' && n !in t ==> n in names && n != "" && t'[n] == Group("enabled", [user], None, now))
      && (forall n :: n in t && n !in names && user !in t[n].members ==> t'[n] == t[n])
      && (forall v :: v != user ==> GroupsOf(t', v) == GroupsOf(t, v))
  {
    var t' := After(t, user, names, now);
    forall n | n in t
      ensures Without(t'[n].members, user) == Without(t[n].members, user)
      ensures forall v :: v != user ==> (v in t'[n].members <==> v in t[n].members)
    {
      WithoutRemoves(t[n].members, user);
      WithoutTwice(t[n].members, user);
      WithoutAppend(Without(t[n].members, user), [user], user);
      assert Without([user], user) == [];
      assert Without(t[n].members, user) + [] == Without(t[n].members, user);
    }
    forall v | v != user ensures GroupsOf(t', v) == GroupsOf(t, v) {
      forall n ensures n in GroupsOf(t', v) <==> n in GroupsOf(t, v) {}
    }
  }

  // ----- What one upsert does -----

  /** What is not given stays: the members of the group and hence everybody's groups, its policy, its status
      unless that is empty; an existing group keeps its date; and no other group is touched. */
  lemma UpsertKeeps(t: Table, name: string, status: string, members: Option<seq<string>>, policy: Option<string>, now: int)
    requires name != ""
    ensures var t' := Upserted(t, name, status, members, policy, now);
      && t'.Keys == t.Keys + {name}
      && (forall n :: n in t && n != name ==> t'[n] == t[n])
      && (if members.Some? then t'[name].members == members.value else forall u :: GroupsOf(t', u) == GroupsOf(t, u))
      && (members.None? && name in t ==> t'[name].members == t[name].members)
      && (policy.Some? ==> t'[name].policy == policy)
      && (policy.None? ==> t'[name].policy == if name in t then t[name].policy else None)
      && t'[name].status != "" && (status != "" ==> t'[name].status == status)
      && (status == "" && name in t && t[name].status != "" ==> t'[name].status == t[name].status)
      && (status == "" && (name in t ==> t[name].status == "") ==> t'[name].status == "enabled")
      && t'[name].created == if name in t then t[name].created else now
  {
    var t' := Upserted(t, name, status, members, policy, now);
    if members.None? {
      forall u ensures GroupsOf(t', u) == GroupsOf(t, u) {
        forall n ensures n in GroupsOf(t', u) <==> n in GroupsOf(t, u) {}
      }
    }
  }

  /** Attaching a policy to groups leaves everybody in the groups they were in, gives exactly the named groups the
      policy, and unlike `SetUserGroups` can be repeated. */
  lemma PolicyLeavesMembers(t: Table, names: set<string>, policy: string, now: int, later: int)
    ensures var t' := WithPolicy(t, names, policy, now);
      && (forall u :: GroupsOf(t', u) == GroupsOf(t, u))
      && (forall n :: n in names && n != "" ==> n in t' && t'[n].policy == Some(policy))
      && (forall n :: n in t && n !in names ==> n in t' && t'[n] == t[n])
      && (forall n :: n in t' ==> n in t || n in names)
      && WithPolicy(t', names, policy, later) == t'
  {
    var t' := WithPolicy(t, names, policy, now);
    forall u ensures GroupsOf(t', u) == GroupsOf(t, u) {
      forall n ensures n in GroupsOf(t', u) <==> n in GroupsOf(t, u) {}
    }
    assert WithPolicy(t', names, policy, later).Keys == t'.Keys;
  }
}
